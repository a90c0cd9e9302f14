/**
 * The `user_profiles` table of api.php, keyed by `username` (the unique
 * key `updateUserProfile`'s `ON DUPLICATE KEY UPDATE` relies on).
 */
module Profiles {
  import opened Php

  datatype Profile = Profile(
    userUid: string,
    wallet: Option<string>,
    lastSeen: int,
    subscriptionStatus: Option<string>)

  /**
   * `updateUserProfile`: inserts the profile, or on a duplicate username
   * refreshes `last_seen` and replaces the wallet only when a new one is
   * given (`COALESCE(?, wallet_address)`); the stored uid is kept.
   */
  function Upsert(profiles: map<string, Profile>, username: string, userUid: string, wallet: Option<string>, now: int)
    : (r: map<string, Profile>)
    ensures r.Keys == profiles.Keys + {username}
    ensures r[username].lastSeen == now
    ensures wallet.Some? ==> r[username].wallet == wallet
    ensures wallet.None? && username in profiles ==> r[username].wallet == profiles[username].wallet
    ensures username in profiles ==>
      r[username].userUid == profiles[username].userUid
      && r[username].subscriptionStatus == profiles[username].subscriptionStatus
    ensures username !in profiles ==>
      r[username] == Profile(userUid, wallet, now, None)
    ensures forall k :: k in profiles && k != username ==> r[k] == profiles[k]
  {
    if username in profiles then
      var p := profiles[username];
      profiles[username := p.(lastSeen := now, wallet := if wallet.Some? then wallet else p.wallet)]
    else profiles[username := Profile(userUid, wallet, now, None)]
  }

  /**
   * `UPDATE user_profiles SET subscription_status = 'active' WHERE username = ?`:
   * a missing profile (or a NULL username) matches nothing.
   */
  function MarkActive(profiles: map<string, Profile>, username: Option<string>): (r: map<string, Profile>)
    ensures r.Keys == profiles.Keys
    ensures username.Some? && username.value in profiles ==>
      r[username.value] == profiles[username.value].(subscriptionStatus := Some("active"))
    ensures forall k :: k in profiles && (username.None? || k != username.value) ==> r[k] == profiles[k]
  {
    if username.Some? && username.value in profiles
    then profiles[username.value := profiles[username.value].(subscriptionStatus := Some("active"))]
    else profiles
  }

  /** A later call without a wallet never erases the wallet an earlier call stored. */
  lemma WalletSticks(profiles: map<string, Profile>, username: string, uid1: string, uid2: string,
                     wallet: string, t1: int, t2: int)
    ensures Upsert(Upsert(profiles, username, uid1, Some(wallet), t1), username, uid2, None, t2)[username].wallet
      == Some(wallet)
  {
  }

  /** The first uid stored for a username survives every later upsert. */
  lemma UidSticks(profiles: map<string, Profile>, username: string, uid1: string, uid2: string,
                  w1: Option<string>, w2: Option<string>, t1: int, t2: int)
    requires username !in profiles
    ensures Upsert(Upsert(profiles, username, uid1, w1, t1), username, uid2, w2, t2)[username].userUid == uid1
  {
  }
}
