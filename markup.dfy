/**
 * The markup trees that `miniyaml.load` returns (nested dictionaries whose leaves are strings)
 * and the few Python operations the decoder applies to them: `t[key]`, `t.get(key)`,
 * `t.items()` and `int(t)`. The parser itself and `int()` on a string are not modelled: they
 * are the two functions of `Env`, given by the caller.
 */
module Markup {
  import opened Wrappers
  import opened Bytes

  /** A leaf is a `str`; a node is a `dict`, its entries in insertion order. */
  datatype Tree = Leaf(text: string) | Node(entries: seq<(string, Tree)>)

  /** The external collaborators: `miniyaml.load` and `int()` on a string (None when it raises). */
  datatype Env = Env(load: seq<byte> -> Tree, toInt: string -> Option<int>)

  /** The first entry of `entries` under `key` (keys of a dict are distinct). */
  function Lookup(entries: seq<(string, Tree)>, key: string): (r: Option<Tree>)
    ensures r.None? <==> forall j :: 0 <= j < |entries| ==> entries[j].0 != key
    ensures r.Some? ==> exists j :: 0 <= j < |entries| && entries[j] == (key, r.value)
  {
    if entries == [] then None
    else if entries[0].0 == key then Some(entries[0].1)
    else
      var r := Lookup(entries[1..], key);
      assert forall j :: 0 <= j < |entries[1..]| ==> entries[1..][j] == entries[j + 1];
      r
  }

  /** `t[key]`: a `str` cannot be indexed by a string (TypeError); a missing key is a KeyError. */
  function Get(t: Tree, key: string): (r: Result<Tree>)
    ensures t.Leaf? ==> r == Err(TypeError)
    ensures t.Node? ==> (r.Ok? <==> Lookup(t.entries, key).Some?)
    ensures t.Node? && r.Err? ==> r.error == KeyError
    ensures r.Ok? ==> t.Node? && Lookup(t.entries, key) == Some(r.value)
  {
    match t
    case Leaf(_) => Err(TypeError)
    case Node(entries) =>
      match Lookup(entries, key)
      case None => Err(KeyError)
      case Some(v) => Ok(v)
  }

  /** `t.get(key)`: a `str` has no `get` (AttributeError); a missing key gives None. */
  function GetOpt(t: Tree, key: string): (r: Result<Option<Tree>>)
    ensures t.Leaf? <==> r.Err?
    ensures r.Err? ==> r.error == AttributeError
    ensures t.Node? ==> r.value == Lookup(t.entries, key)
  {
    if t.Leaf? then Err(AttributeError) else Ok(Lookup(t.entries, key))
  }

  /** `t.items()`: only a dict has items. */
  function Items(t: Tree): (r: Result<seq<(string, Tree)>>)
    ensures t.Leaf? <==> r == Err(AttributeError)
    ensures t.Node? ==> r == Ok(t.entries)
  {
    if t.Leaf? then Err(AttributeError) else Ok(t.entries)
  }

  /** `int(t)`: a dict is a TypeError, a string that is not a number a ValueError. */
  function ToInt(env: Env, t: Tree): (r: Result<int>)
    ensures t.Node? ==> r == Err(TypeError)
    ensures t.Leaf? && env.toInt(t.text).None? ==> r == Err(ValueError)
    ensures t.Leaf? && env.toInt(t.text).Some? ==> r == Ok(env.toInt(t.text).value)
  {
    match t
    case Node(_) => Err(TypeError)
    case Leaf(s) =>
      match env.toInt(s)
      case None => Err(ValueError)
      case Some(n) => Ok(n)
  }

  /** A literal `b'...'` made of characters below 256, as bytes. */
  function Latin1(s: string): (r: seq<byte>)
    ensures |r| == |s|
  {
    seq(|s|, i requires 0 <= i < |s| => if s[i] as int < 256 then s[i] as int else 0)
  }

  /** `s.startswith(prefix)`. */
  predicate StartsWith(s: string, prefix: string)
  {
    prefix <= s
  }

  /** A single-entry dict `{key: value}`. */
  function Single(key: string, value: Tree): (r: Tree)
    ensures Get(r, key) == Ok(value)
  {
    Node([(key, value)])
  }
}
