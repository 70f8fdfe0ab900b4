/**
 * The part of running a benchmark script in a separate process that decides what
 * goes into the script: where the bootstrap file is, which files must exist, and
 * the table of `{{ key }}` tokens the script template is filled in with.
 *
 * A PHP array with string keys is modelled as a sequence of key/value entries
 * with distinct keys, so that its order is kept. A parameter value is a string or
 * null (`None`). Whether a file exists is given as the set of existing paths.
 */
module Benchmark {
  import opened Optional

  /** An ordered PHP array with string keys. */
  type Entries<V> = seq<(string, V)>

  predicate DistinctKeys<V>(e: Entries<V>) {
    forall i, j :: 0 <= i < j < |e| ==> e[i].0 != e[j].0
  }

  function Keys<V>(e: Entries<V>): (r: set<string>)
    ensures forall k :: k in r <==> exists i :: 0 <= i < |e| && e[i].0 == k
  {
    set i | 0 <= i < |e| :: e[i].0
  }

  /** `$array[$key]`, or nothing when the key is absent. */
  function Lookup<V>(e: Entries<V>, key: string): (r: Option<V>)
    ensures r.None? <==> key !in Keys(e)
    ensures DistinctKeys(e) ==> forall i :: 0 <= i < |e| && e[i].0 == key ==> r == Some(e[i].1)
  {
    if e == [] then None
    else if e[0].0 == key then Some(e[0].1)
    else Lookup(e[1..], key)
  }

  lemma KeysCons<V>(x: (string, V), e: Entries<V>)
    ensures Keys([x] + e) == {x.0} + Keys(e)
  {
    var s := [x] + e;
    assert s[0] == x;
    forall k | k in Keys(e)
      ensures k in Keys(s)
    {
      var i :| 0 <= i < |e| && e[i].0 == k;
      assert s[i + 1] == e[i];
    }
    forall k | k in Keys(s)
      ensures k == x.0 || k in Keys(e)
    {
      var i :| 0 <= i < |s| && s[i].0 == k;
      if i > 0 {
        assert s[i] == e[i - 1];
      }
    }
  }

  /**
   * `$array[$key] = $value`: an existing entry is overwritten where it stands, a
   * new key is appended at the end.
   */
  function Assign<V>(e: Entries<V>, key: string, value: V): (r: Entries<V>)
    ensures Keys(r) == Keys(e) + {key}
    ensures |r| == if key in Keys(e) then |e| else |e| + 1
    ensures Lookup(r, key) == Some(value)
    ensures forall k :: k != key ==> Lookup(r, k) == Lookup(e, k)
  {
    if e == [] then
      assert [(key, value)][0].0 == key;
      [(key, value)]
    else
      assert e == [e[0]] + e[1..];
      KeysCons(e[0], e[1..]);
      if e[0].0 == key then
        KeysCons((key, value), e[1..]);
        [(key, value)] + e[1..]
      else
        var tail := Assign(e[1..], key, value);
        KeysCons(e[0], tail);
        [e[0]] + tail
  }

  /** Assignment keeps every existing entry's key where it stands. */
  lemma {:induction false} AssignKeepsPositions<V>(e: Entries<V>, key: string, value: V)
    ensures forall i :: 0 <= i < |e| ==> Assign(e, key, value)[i].0 == e[i].0
    decreases |e|
  {
    if e != [] {
      var r := Assign(e, key, value);
      if e[0].0 == key {
        assert r == [(key, value)] + e[1..];
      } else {
        var tail := Assign(e[1..], key, value);
        AssignKeepsPositions(e[1..], key, value);
        assert r == [e[0]] + tail;
        forall i | 0 < i < |e|
          ensures r[i].0 == e[i].0
        {
          assert r[i] == tail[i - 1];
        }
      }
    }
  }

  /** Assigning to a new key appends its entry at the end. */
  lemma {:induction false} AssignAppends<V>(e: Entries<V>, key: string, value: V)
    requires key !in Keys(e)
    ensures Assign(e, key, value) == e + [(key, value)]
    decreases |e|
  {
    if e != [] {
      assert e == [e[0]] + e[1..];
      KeysCons(e[0], e[1..]);
      AssignAppends(e[1..], key, value);
      assert [e[0]] + (e[1..] + [(key, value)]) == e + [(key, value)];
    }
  }

  /** Assigning to a PHP array keeps its keys distinct. */
  lemma {:induction false} AssignDistinct<V>(e: Entries<V>, key: string, value: V)
    requires DistinctKeys(e)
    ensures DistinctKeys(Assign(e, key, value))
    decreases |e|
  {
    var r := Assign(e, key, value);
    if e != [] && e[0].0 == key {
      assert forall i :: 0 <= i < |r| ==> r[i].0 == e[i].0;
    } else if e != [] {
      var tail := Assign(e[1..], key, value);
      AssignDistinct(e[1..], key, value);
      assert e[0].0 !in Keys(e[1..]);
      assert r == [e[0]] + tail;
      forall i, j | 0 <= i < j < |r|
        ensures r[i].0 != r[j].0
      {
        assert r[j] == tail[j - 1];
        if i > 0 {
          assert r[i] == tail[i - 1];
        } else {
          assert r[j].0 in Keys(tail);
        }
      }
    }
  }

  /** PHP truthiness of a string or null: null, `""` and `"0"` are false. */
  function Truthy(s: Option<string>): (r: bool)
    ensures !r <==> s == None || s == Some("") || s == Some("0")
    ensures r ==> s.Some? && |s.value| > 0
  {
    s.Some? && s.value != "" && s.value != "0"
  }

  predicate IsPrefix(prefix: string, s: string) {
    |prefix| <= |s| && s[..|prefix|] == prefix
  }

  /** The index of the last `/` in `path`, if there is one. */
  function LastSlash(path: string): (r: Option<nat>)
    ensures r.Some? ==> r.value < |path| && path[r.value] == '/'
    ensures r.Some? ==> forall i :: r.value < i < |path| ==> path[i] != '/'
    ensures r.None? ==> forall i :: 0 <= i < |path| ==> path[i] != '/'
  {
    if path == [] then None
    else if path[|path| - 1] == '/' then Some(|path| - 1)
    else LastSlash(path[..|path| - 1])
  }

  /**
   * `dirname`: everything before the last `/`; `/` for a file in the root
   * directory, `.` for a bare file name and the empty string for the empty path.
   */
  function Dirname(path: string): (r: string)
    ensures r == [] <==> path == []
    ensures path != [] && LastSlash(path).None? ==> r == "."
    ensures LastSlash(path).Some? && LastSlash(path).value > 0 ==>
      r == path[..LastSlash(path).value] && IsPrefix(r + "/", path)
    ensures LastSlash(path) == Some(0) ==> r == "/"
  {
    if path == [] then ""
    else
      match LastSlash(path)
      case None => "."
      case Some(0) => "/"
      case Some(i) => path[..i]
  }

  /** The placeholder for parameter `key` in a script template. */
  function Token(key: string): (r: string)
    ensures |r| == |key| + 6
    ensures r[..3] == "{{ " && r[|r| - 3..] == " }}"
    ensures r[3..|r| - 3] == key
  {
    "{{ " + key + " }}"
  }

  /** Distinct keys give distinct placeholders. */
  lemma TokenInjective(a: string, b: string)
    requires Token(a) == Token(b)
    ensures a == b
  {
    assert a == Token(a)[3..|Token(a)| - 3];
    assert b == Token(b)[3..|Token(b)| - 3];
  }

  /** The token table for `parameters`: one placeholder per key, in the order of the keys. */
  function TokenTable(parameters: Entries<Option<string>>): (r: Entries<Option<string>>)
    ensures |r| == |parameters|
    ensures forall i :: 0 <= i < |r| ==> r[i] == (Token(parameters[i].0), parameters[i].1)
  {
    seq(|parameters|, i requires 0 <= i < |parameters| => (Token(parameters[i].0), parameters[i].1))
  }

  datatype ExecuteError =
    | InvalidArgument(message: string)
    | Runtime(message: string)

  class Telespector {
    /** The bootstrap file as configured: null, or a path that may be relative. */
    const bootstrap: Option<string>
    /** The directory of the configuration file; relative bootstrap paths start here. */
    const configDir: string

    constructor(bootstrap: Option<string>, configPath: string)
      ensures this.bootstrap == bootstrap
      ensures configDir == Dirname(configPath)
    {
      this.bootstrap := bootstrap;
      configDir := Dirname(configPath);
    }

    /**
     * The bootstrap file to load: none when the configured one is falsy, the
     * configured path when it is absolute, and otherwise that path under the
     * configuration directory.
     */
    function BootstrapPath(): (r: Option<string>)
      ensures r.None? <==> !Truthy(bootstrap)
      ensures r.Some? ==> Truthy(r)
      ensures r.Some? && bootstrap.value[0] == '/' ==> r == bootstrap
      ensures r.Some? && bootstrap.value[0] != '/' ==>
        |r.value| == |configDir| + 1 + |bootstrap.value| && r.value[..|configDir|] == configDir
        && r.value[|configDir|] == '/' && r.value[|configDir| + 1..] == bootstrap.value
    {
      if !Truthy(bootstrap) then None
      else if bootstrap.value[0] == '/' then bootstrap
      else Some(configDir + "/" + bootstrap.value)
    }

    /**
     * Everything the script run does before it reads the template: check that the
     * bootstrap file (when there is one) and the template exist, in that order,
     * then set the `bootstrap` parameter and build the token table from the
     * parameters.
     */
    method Execute(template: string, parameters: Entries<Option<string>>, existing: set<string>)
      returns (r: Result<Entries<Option<string>>, ExecuteError>)
      ensures var path := BootstrapPath();
        if Truthy(path) && path.value !in existing then
          r == Failure(InvalidArgument("Bootstrap file \"" + path.value + "\" does not exist"))
        else if template !in existing then
          r == Failure(Runtime("Could not find script template \"" + template + "\""))
        else
          r == Success(TokenTable(Assign(parameters, "bootstrap", path)))
    {
      var path := BootstrapPath();
      if Truthy(path) && path.value !in existing {
        return Failure(InvalidArgument("Bootstrap file \"" + path.value + "\" does not exist"));
      }
      if template !in existing {
        return Failure(Runtime("Could not find script template \"" + template + "\""));
      }
      var withBootstrap := Assign(parameters, "bootstrap", path);
      var tokens := BuildTokens(withBootstrap);
      return Success(tokens);
    }
  }

  /** The `foreach` that fills the token table, one parameter at a time. */
  method BuildTokens(parameters: Entries<Option<string>>) returns (tokens: Entries<Option<string>>)
    ensures tokens == TokenTable(parameters)
  {
    tokens := [];
    for i := 0 to |parameters|
      invariant |tokens| == i
      invariant forall j :: 0 <= j < i ==> tokens[j] == (Token(parameters[j].0), parameters[j].1)
    {
      tokens := tokens + [(Token(parameters[i].0), parameters[i].1)];
    }
  }

  /** Whether a bootstrap file is to be checked does not depend on how its path was resolved. */
  lemma ResolvedBootstrapTruthy(t: Telespector)
    ensures Truthy(t.BootstrapPath()) <==> Truthy(t.bootstrap)
  {
  }

  /** With an absolute configuration directory, every resolved bootstrap path is absolute. */
  lemma ResolvedBootstrapAbsolute(t: Telespector)
    requires |t.configDir| > 0 && t.configDir[0] == '/'
    ensures t.BootstrapPath().Some? ==> t.BootstrapPath().value[0] == '/'
  {
    var r := t.BootstrapPath();
    if r.Some? && t.bootstrap.value[0] != '/' {
      assert r.value[..|t.configDir|][0] == r.value[0];
    }
  }

  /** Distinct keys give a token table with distinct tokens. */
  lemma TokenTableDistinct(parameters: Entries<Option<string>>)
    requires DistinctKeys(parameters)
    ensures DistinctKeys(TokenTable(parameters))
  {
    var table := TokenTable(parameters);
    forall i, j | 0 <= i < j < |table|
      ensures table[i].0 != table[j].0
    {
      if table[i].0 == table[j].0 {
        TokenInjective(parameters[i].0, parameters[j].0);
      }
    }
  }

  /** Every key's token stands for that key's value, and no other token is in the table. */
  lemma TokenTableLookup(parameters: Entries<Option<string>>, key: string)
    requires DistinctKeys(parameters)
    ensures Lookup(TokenTable(parameters), Token(key)) == Lookup(parameters, key)
  {
    var table := TokenTable(parameters);
    TokenTableDistinct(parameters);
    if key in Keys(parameters) {
      var i :| 0 <= i < |parameters| && parameters[i].0 == key;
      assert table[i].0 == Token(key);
    }
  }

  /**
   * After a successful run of `Execute`, the `bootstrap` token stands for the
   * resolved bootstrap path, whatever the caller passed under that key, and every
   * other key's token stands for the caller's value.
   */
  lemma ExecuteTokens(t: Telespector, parameters: Entries<Option<string>>, key: string)
    requires DistinctKeys(parameters)
    ensures var table := TokenTable(Assign(parameters, "bootstrap", t.BootstrapPath()));
      && Lookup(table, Token("bootstrap")) == Some(t.BootstrapPath())
      && (key != "bootstrap" ==> Lookup(table, Token(key)) == Lookup(parameters, key))
  {
    var withBootstrap := Assign(parameters, "bootstrap", t.BootstrapPath());
    AssignDistinct(parameters, "bootstrap", t.BootstrapPath());
    TokenTableLookup(withBootstrap, "bootstrap");
    TokenTableLookup(withBootstrap, key);
  }
}
