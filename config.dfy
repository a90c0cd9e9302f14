/**
 * The configuration helpers of config.php: the `.env` loader, the
 * required-field validator and the two business constants.
 */
module Config {
  import opened Php

  /** Length of a subscription bought through the payment gateway. */
  const SubscriptionDurationDays: int := 30
  /** Time a winner has to pay for a won lot. */
  const AuctionPaymentTimeoutHours: int := 24

  // ---------------------------------------------------------------------
  // validateRequired
  // ---------------------------------------------------------------------

  /** Outcome of `validateRequired`: pass, or the 400 response it sends. */
  datatype Check = Accepted | Rejected(status: int, message: string)

  function MissingMessage(field: string): string {
    "Required field '" + field + "' is missing"
  }

  /** `isset($data[$field]) && !empty($data[$field])`. */
  predicate Present(data: map<string, Value>, field: string) {
    field in data && !Empty(data[field])
  }

  /**
   * `validateRequired`: scans the fields in order and answers with a 400
   * naming the first field that is unset or empty.
   */
  function ValidateRequired(data: map<string, Value>, required: seq<string>): (r: Check)
    ensures r.Accepted? <==> forall i :: 0 <= i < |required| ==> Present(data, required[i])
    ensures r.Rejected? ==>
      exists k :: 0 <= k < |required| && !Present(data, required[k])
        && (forall i :: 0 <= i < k ==> Present(data, required[i]))
        && r == Rejected(400, MissingMessage(required[k]))
  {
    if required == [] then Accepted
    else if !Present(data, required[0]) then Rejected(400, MissingMessage(required[0]))
    else
      var rest := ValidateRequired(data, required[1..]);
      assert forall i :: 1 <= i < |required| ==> required[i] == required[1..][i - 1];
      rest
  }

  // ---------------------------------------------------------------------
  // loadEnvFile
  // ---------------------------------------------------------------------

  /** The characters PHP's `trim` strips by default. */
  predicate IsSpace(c: char) {
    c == ' ' || c == '\t' || c == '\n' || c == '\r' || c == '\0' || c == '\U{B}'
  }

  predicate AllSpace(s: string) {
    forall i :: 0 <= i < |s| ==> IsSpace(s[i])
  }

  /** PHP `trim`: drops blanks from both ends. */
  function Trim(s: string): (r: string)
    ensures |r| <= |s|
    ensures r != [] ==> !IsSpace(r[0]) && !IsSpace(r[|r| - 1])
  {
    if s != [] && IsSpace(s[0]) then Trim(s[1..])
    else if s != [] && IsSpace(s[|s| - 1]) then Trim(s[..|s| - 1])
    else s
  }

  /** A blank put in front of a blank-padded string joins its front padding. */
  lemma ConsBlank(c: char, pre: string, mid: string, post: string)
    requires IsSpace(c) && AllSpace(pre)
    ensures [c] + (pre + mid + post) == ([c] + pre) + mid + post && AllSpace([c] + pre)
  {
  }

  /** A blank put at the end of a blank-padded string joins its back padding. */
  lemma SnocBlank(pre: string, mid: string, post: string, c: char)
    requires IsSpace(c) && AllSpace(post)
    ensures (pre + mid + post) + [c] == pre + mid + (post + [c]) && AllSpace(post + [c])
  {
  }

  /** What `Trim` removes is blanks only, at both ends, and nothing else. */
  lemma {:induction false} TrimMeaning(s: string)
    ensures exists pre, post :: s == pre + Trim(s) + post && AllSpace(pre) && AllSpace(post)
  {
    if s != [] && IsSpace(s[0]) {
      TrimMeaning(s[1..]);
      var pre, post :| s[1..] == pre + Trim(s[1..]) + post && AllSpace(pre) && AllSpace(post);
      ConsBlank(s[0], pre, Trim(s), post);
      assert s == [s[0]] + s[1..];
      assert s == ([s[0]] + pre) + Trim(s) + post && AllSpace([s[0]] + pre) && AllSpace(post);
    } else if s != [] && IsSpace(s[|s| - 1]) {
      TrimMeaning(s[..|s| - 1]);
      var pre, post :| s[..|s| - 1] == pre + Trim(s[..|s| - 1]) + post && AllSpace(pre) && AllSpace(post);
      SnocBlank(pre, Trim(s), post, s[|s| - 1]);
      assert s == s[..|s| - 1] + [s[|s| - 1]];
      assert s == pre + Trim(s) + (post + [s[|s| - 1]]) && AllSpace(pre) && AllSpace(post + [s[|s| - 1]]);
    } else {
      var nothing: string := [];
      assert Trim(s) == s && s == nothing + Trim(s) + nothing;
      assert AllSpace(nothing);
    }
  }

  /** A text made only of blanks trims to the empty string. */
  lemma {:induction false} TrimAllSpace(s: string)
    requires AllSpace(s)
    ensures Trim(s) == ""
  {
    if s != [] {
      TrimAllSpace(s[1..]);
    }
  }

  lemma TrimIdempotent(s: string)
    ensures Trim(Trim(s)) == Trim(s)
  {
  }

  /**
   * `explode($sep, $s, 2)`: the text before the first separator and, when
   * there is one, everything after it (further separators included).
   */
  function ExplodeOnce(s: string, sep: char): (r: (string, Option<string>))
    ensures sep !in r.0
    ensures r.1.Some? ==> s == r.0 + [sep] + r.1.value
    ensures r.1.None? ==> s == r.0
  {
    if s == [] then ("", None)
    else if s[0] == sep then ("", Some(s[1..]))
    else
      var (head, tail) := ExplodeOnce(s[1..], sep);
      ([s[0]] + head, tail)
  }

  /** What the loader makes of one line of the file. */
  datatype EnvLine =
    | Skipped                                 // dropped by FILE_SKIP_EMPTY_LINES
    | Comment                                 // trimmed text starts with '#'
    | Assignment(name: string, value: string)

  predicate IsComment(line: string) {
    var t := Trim(line);
    t != [] && t[0] == '#'
  }

  /**
   * One iteration of the loader's loop, before the "already set" check.
   * A line without '=' gives an empty value: `list()` leaves `$value` null
   * and `trim(null)` is "".
   */
  function ParseLine(line: string): (r: EnvLine)
    ensures r.Skipped? <==> line == ""
    ensures r.Comment? <==> line != "" && IsComment(line)
    ensures r.Assignment? ==> '=' !in line ==> r.value == ""
  {
    if line == "" then Skipped
    else if IsComment(line) then Comment
    else
      var (name, value) := ExplodeOnce(line, '=');
      Assignment(Trim(name), Trim(value.GetOr("")))
  }

  /** `explode` splits at the first separator, whatever follows it. */
  lemma {:induction false} ExplodeAtFirst(head: string, sep: char, tail: string)
    requires sep !in head
    ensures ExplodeOnce(head + [sep] + tail, sep) == (head, Some(tail))
  {
    var s := head + [sep] + tail;
    if head == [] {
      assert s[1..] == tail;
    } else {
      assert s[0] == head[0] != sep;
      assert s[1..] == head[1..] + [sep] + tail;
      ExplodeAtFirst(head[1..], sep, tail);
      assert [head[0]] + head[1..] == head;
    }
  }

  /** The split is at the FIRST '=': a value may itself contain '='. */
  lemma SplitAtFirstEquals(name: string, value: string)
    requires '=' !in name
    requires !IsComment(name + "=" + value)
    ensures ParseLine(name + "=" + value) == Assignment(Trim(name), Trim(value))
  {
    ExplodeAtFirst(name, '=', value);
  }

  /** The file as the loader sees it, one entry per line. */
  function ParseFile(lines: seq<string>): seq<EnvLine> {
    seq(|lines|, i requires 0 <= i < |lines| => ParseLine(lines[i]))
  }

  /** The value of the first assignment to `name` among `entries`. */
  function FirstAssignment(entries: seq<EnvLine>, name: string): Option<string> {
    if entries == [] then None
    else if entries[0].Assignment? && entries[0].name == name then Some(entries[0].value)
    else FirstAssignment(entries[1..], name)
  }

  /** One more entry can only define names the earlier entries left undefined. */
  lemma {:induction false} FirstAssignmentExtend(entries: seq<EnvLine>, e: EnvLine, name: string)
    ensures FirstAssignment(entries + [e], name) ==
      if FirstAssignment(entries, name).Some? then FirstAssignment(entries, name)
      else if e.Assignment? && e.name == name then Some(e.value)
      else None
  {
    if entries == [] {
      assert [e][1..] == [];
    } else {
      assert (entries + [e])[1..] == entries[1..] + [e];
      FirstAssignmentExtend(entries[1..], e, name);
    }
  }

  /** A later assignment of a name the file already assigned is ignored. */
  lemma {:induction false} FirstAssignmentWins(entries: seq<EnvLine>, name: string, v1: string, v2: string)
    ensures FirstAssignment(entries + [Assignment(name, v1), Assignment(name, v2)], name) ==
      if FirstAssignment(entries, name).Some? then FirstAssignment(entries, name) else Some(v1)
  {
    var e1, e2 := Assignment(name, v1), Assignment(name, v2);
    FirstAssignmentExtend(entries, e1, name);
    FirstAssignmentExtend(entries + [e1], e2, name);
    assert entries + [e1] + [e2] == entries + [e1, e2];
  }

  /** `name` keeps exactly the entry it had before the load. */
  ghost predicate Kept(before: map<string, string>, after: map<string, string>, name: string) {
    (name in after <==> name in before) && (name in after ==> after[name] == before[name])
  }

  /** `name` is set in both superglobals exactly when `entries` assign it, to the first value. */
  ghost predicate FromFile(env: map<string, string>, server: map<string, string>, entries: seq<EnvLine>, name: string) {
    && (name in env <==> FirstAssignment(entries, name).Some?)
    && (name in server <==> FirstAssignment(entries, name).Some?)
    && (name in env ==> env[name] == server[name] == FirstAssignment(entries, name).value)
  }

  /**
   * The state after loading `entries` into `env0`/`server0`: a name already in
   * either superglobal is left alone, every other name comes from the file.
   */
  ghost predicate Loaded(env0: map<string, string>, server0: map<string, string>,
                         env: map<string, string>, server: map<string, string>, entries: seq<EnvLine>)
  {
    && (forall name {:trigger Kept(env0, env, name)} :: name in env0 || name in server0 ==>
          Kept(env0, env, name) && Kept(server0, server, name))
    && (forall name {:trigger FromFile(env, server, entries, name)} :: name !in env0 && name !in server0 ==>
          FromFile(env, server, entries, name))
  }

  lemma LoadStep(env0: map<string, string>, server0: map<string, string>,
                 env: map<string, string>, server: map<string, string>, entries: seq<EnvLine>, e: EnvLine,
                 env': map<string, string>, server': map<string, string>)
    requires Loaded(env0, server0, env, server, entries)
    requires if e.Assignment? && e.name !in server && e.name !in env
      then env' == env[e.name := e.value] && server' == server[e.name := e.value]
      else env' == env && server' == server
    ensures Loaded(env0, server0, env', server', entries + [e])
  {
    forall name | name in env0 || name in server0
      ensures Kept(env0, env', name) && Kept(server0, server', name)
    {
      assert Kept(env0, env, name) && Kept(server0, server, name);
    }
    forall name | name !in env0 && name !in server0
      ensures FromFile(env', server', entries + [e], name)
    {
      assert FromFile(env, server, entries, name);
      FirstAssignmentExtend(entries, e, name);
    }
  }

  /** One pass of the loop body: store an assignment unless the name is already set. */
  function Store(env: map<string, string>, server: map<string, string>, x: EnvLine)
    : (map<string, string>, map<string, string>)
  {
    if x.Assignment? && x.name !in server && x.name !in env
    then (env[x.name := x.value], server[x.name := x.value])
    else (env, server)
  }

  /** `$_ENV` and `$_SERVER` after the loader's loop has run over `entries`. */
  function Load(env: map<string, string>, server: map<string, string>, entries: seq<EnvLine>)
    : (map<string, string>, map<string, string>)
  {
    if entries == [] then (env, server)
    else
      var (e, s) := Load(env, server, entries[..|entries| - 1]);
      Store(e, s, entries[|entries| - 1])
  }

  /** The superglobals after loading the lines of a file. */
  function LoadFile(env: map<string, string>, server: map<string, string>, lines: seq<string>)
    : (r: (map<string, string>, map<string, string>))
    ensures Loaded(env, server, r.0, r.1, ParseFile(lines))
  {
    LoadMeaning(env, server, ParseFile(lines));
    Load(env, server, ParseFile(lines))
  }

  lemma LoadFileStep(env: map<string, string>, server: map<string, string>, lines: seq<string>, line: string)
    ensures LoadFile(env, server, lines + [line]) ==
      Store(LoadFile(env, server, lines).0, LoadFile(env, server, lines).1, ParseLine(line))
  {
    var all := ParseFile(lines + [line]);
    assert all[..|lines|] == ParseFile(lines);
  }

  /** What the loop achieves, name by name. */
  lemma {:induction false} LoadMeaning(env: map<string, string>, server: map<string, string>, entries: seq<EnvLine>)
    ensures Loaded(env, server, Load(env, server, entries).0, Load(env, server, entries).1, entries)
  {
    if entries == [] {
      forall name | name in env || name in server
        ensures Kept(env, env, name) && Kept(server, server, name)
      {
      }
      forall name | name !in env && name !in server
        ensures FromFile(env, server, entries, name)
      {
      }
    } else {
      var init := entries[..|entries| - 1];
      LoadMeaning(env, server, init);
      var (e, s) := Load(env, server, init);
      assert init + [entries[|entries| - 1]] == entries;
      LoadStep(env, server, e, s, init, entries[|entries| - 1], Load(env, server, entries).0, Load(env, server, entries).1);
    }
  }

  /** The loader's loop over the lines of an existing file. */
  method LoadLines(env: map<string, string>, server: map<string, string>, lines: seq<string>)
    returns (e: map<string, string>, sv: map<string, string>)
    ensures (e, sv) == LoadFile(env, server, lines)
  {
    e, sv := env, server;
    var i := 0;
    assert lines[..0] == [];
    while i < |lines|
      invariant 0 <= i <= |lines|
      invariant (e, sv) == LoadFile(env, server, lines[..i])
    {
      var entry := ParseLine(lines[i]);
      if entry.Assignment? && entry.name !in sv && entry.name !in e {
        e := e[entry.name := entry.value];
        sv := sv[entry.name := entry.value];
      }
      LoadFileStep(env, server, lines[..i], lines[i]);
      assert lines[..i + 1] == lines[..i] + [lines[i]];
      i := i + 1;
    }
    assert lines[..i] == lines;
  }

  /** The superglobals `$_ENV` and `$_SERVER` that the loader fills. */
  class Environment {
    var env: map<string, string>
    var server: map<string, string>

    constructor (env0: map<string, string>, server0: map<string, string>)
      ensures env == env0 && server == server0
    {
      env := env0;
      server := server0;
    }

    /**
     * `loadEnvFile`: `file` is the file's lines with their newlines removed,
     * or None when the file does not exist (then nothing changes). What the
     * new state means name by name is `LoadMeaning`.
     */
    method LoadEnvFile(file: Option<seq<string>>)
      modifies this
      ensures file.None? ==> env == old(env) && server == old(server)
      ensures file.Some? ==> (env, server) == LoadFile(old(env), old(server), file.value)
    {
      if file.Some? {
        env, server := LoadLines(env, server, file.value);
      }
    }
  }
}
