/** The command line's lookup of a photo or a LUT by name: an exact key first, then the
    first key, in insertion order, that matches when both are lower-cased. */
module Cli {
  import opened Wrappers
  import Ascii

  /** A dictionary as its items in insertion order; its keys are distinct. */
  predicate DistinctKeys<V>(mapping: seq<(string, V)>)
  {
    forall i, j :: 0 <= i < j < |mapping| ==> mapping[i].0 != mapping[j].0
  }

  /** mapping[key], if key is a key. */
  function Lookup<V>(mapping: seq<(string, V)>, key: string): (r: Option<V>)
    ensures r.None? <==> forall i :: 0 <= i < |mapping| ==> mapping[i].0 != key
  {
    if mapping == [] then None
    else if mapping[0].0 == key then Some(mapping[0].1)
    else Lookup(mapping[1..], key)
  }

  /** The value of the first item whose lower-cased key is lowered. */
  function FirstCaseless<V>(mapping: seq<(string, V)>, lowered: string): (r: Option<V>)
    ensures r.None? <==> forall i :: 0 <= i < |mapping| ==> Ascii.Lower(mapping[i].0) != lowered
  {
    if mapping == [] then None
    else if Ascii.Lower(mapping[0].0) == lowered then Some(mapping[0].1)
    else FirstCaseless(mapping[1..], lowered)
  }

  /** _resolve_case_insensitive. */
  function ResolveCaseInsensitive<V>(mapping: seq<(string, V)>, key: string): (r: Option<V>)
    ensures r.None? <==> forall i :: 0 <= i < |mapping| ==> Ascii.Lower(mapping[i].0) != Ascii.Lower(key)
  {
    match Lookup(mapping, key)
    case Some(v) => Some(v)
    case None => FirstCaseless(mapping, Ascii.Lower(key))
  }

  /** A key present as given resolves to its own value. */
  lemma {:induction false} ResolveExact<V>(mapping: seq<(string, V)>, key: string, i: nat)
    requires DistinctKeys(mapping) && i < |mapping| && mapping[i].0 == key
    ensures ResolveCaseInsensitive(mapping, key) == Some(mapping[i].1)
  {
    LookupAt(mapping, key, i);
  }

  lemma {:induction false} LookupAt<V>(mapping: seq<(string, V)>, key: string, i: nat)
    requires DistinctKeys(mapping) && i < |mapping| && mapping[i].0 == key
    ensures Lookup(mapping, key) == Some(mapping[i].1)
  {
    if i > 0 {
      assert mapping[0].0 != key;
      var rest := mapping[1..];
      assert rest[i - 1] == mapping[i];
      LookupAt(rest, key, i - 1);
    }
  }

  /** Otherwise the first key equal to it up to case decides. */
  lemma {:induction false} ResolveCaseless<V>(mapping: seq<(string, V)>, key: string, i: nat)
    requires forall j :: 0 <= j < |mapping| ==> mapping[j].0 != key
    requires i < |mapping| && Ascii.Lower(mapping[i].0) == Ascii.Lower(key)
    requires forall j :: 0 <= j < i ==> Ascii.Lower(mapping[j].0) != Ascii.Lower(key)
    ensures ResolveCaseInsensitive(mapping, key) == Some(mapping[i].1)
  {
    FirstCaselessAt(mapping, Ascii.Lower(key), i);
  }

  lemma {:induction false} FirstCaselessAt<V>(mapping: seq<(string, V)>, lowered: string, i: nat)
    requires i < |mapping| && Ascii.Lower(mapping[i].0) == lowered
    requires forall j :: 0 <= j < i ==> Ascii.Lower(mapping[j].0) != lowered
    ensures FirstCaseless(mapping, lowered) == Some(mapping[i].1)
  {
    if i > 0 {
      var rest := mapping[1..];
      assert forall j :: 0 <= j < i - 1 ==> rest[j] == mapping[j + 1];
      FirstCaselessAt(rest, lowered, i - 1);
    }
  }

  /** A resolved value is one of the mapping's values. */
  lemma ResolveFromMapping<V>(mapping: seq<(string, V)>, key: string)
    requires ResolveCaseInsensitive(mapping, key).Some?
    ensures exists i :: 0 <= i < |mapping| && ResolveCaseInsensitive(mapping, key) == Some(mapping[i].1)
  {
    match Lookup(mapping, key)
    case Some(v) =>
      LookupFrom(mapping, key);
    case None =>
      FirstCaselessFrom(mapping, Ascii.Lower(key));
  }

  lemma {:induction false} LookupFrom<V>(mapping: seq<(string, V)>, key: string)
    requires Lookup(mapping, key).Some?
    ensures exists i :: 0 <= i < |mapping| && mapping[i].0 == key && Lookup(mapping, key) == Some(mapping[i].1)
  {
    if mapping[0].0 != key {
      LookupFrom(mapping[1..], key);
      var i :| 0 <= i < |mapping[1..]| && mapping[1..][i].0 == key && Lookup(mapping[1..], key) == Some(mapping[1..][i].1);
      assert mapping[i + 1] == mapping[1..][i];
    }
  }

  lemma {:induction false} FirstCaselessFrom<V>(mapping: seq<(string, V)>, lowered: string)
    requires FirstCaseless(mapping, lowered).Some?
    ensures exists i :: 0 <= i < |mapping| && FirstCaseless(mapping, lowered) == Some(mapping[i].1)
  {
    if Ascii.Lower(mapping[0].0) != lowered {
      FirstCaselessFrom(mapping[1..], lowered);
      var i :| 0 <= i < |mapping[1..]| && FirstCaseless(mapping[1..], lowered) == Some(mapping[1..][i].1);
      assert mapping[i + 1] == mapping[1..][i];
    } else {
      assert FirstCaseless(mapping, lowered) == Some(mapping[0].1);
    }
  }
}
