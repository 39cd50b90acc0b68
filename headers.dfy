/**
 * The header container a request carries and a response is built with:
 * an ordered list of name/value pairs, looked up by name without regard
 * to ASCII case, the first match winning.
 */
module HeaderTable {
  import opened Wrappers
  import opened Text

  datatype Header = Header(name: string, value: string)

  type Headers = seq<Header>

  /** Header names compare without regard to ASCII case. */
  predicate SameName(a: string, b: string) {
    Lower(a) == Lower(b)
  }

  /** The position of the first header called `name`, if there is one. */
  function Find(hs: Headers, name: string): (r: Option<nat>)
    ensures r.Some? ==> r.value < |hs| && SameName(hs[r.value].name, name)
    ensures forall i :: 0 <= i < |hs| && (r.None? || i < r.value) ==> !SameName(hs[i].name, name)
    decreases |hs|
  {
    if hs == [] then None
    else if SameName(hs[0].name, name) then Some(0)
    else match Find(hs[1..], name)
      case None => None
      case Some(i) => Some(i + 1)
  }

  /** `headers.get(name, default)`. */
  function Get(hs: Headers, name: string, default: string): string {
    match Find(hs, name)
    case None => default
    case Some(i) => hs[i].value
  }

  /** `headers.add(name, value)`: the new header goes after the existing ones. */
  function Add(hs: Headers, name: string, value: string): (r: Headers)
    ensures |r| == |hs| + 1 && r[..|hs|] == hs && r[|hs|] == Header(name, value)
  {
    hs + [Header(name, value)]
  }

  /** A name nobody set yields the default. */
  lemma GetMissing(hs: Headers, name: string, default: string)
    requires forall i :: 0 <= i < |hs| ==> !SameName(hs[i].name, name)
    ensures Get(hs, name, default) == default
  {
  }

  /** The first header with a matching name supplies the value. */
  lemma GetFirst(hs: Headers, i: nat, name: string, default: string)
    requires i < |hs| && SameName(hs[i].name, name)
    requires forall j :: 0 <= j < i ==> !SameName(hs[j].name, name)
    ensures Get(hs, name, default) == hs[i].value
  {
    var r := Find(hs, name);
    assert r.Some?;
    assert r.value == i;
  }

  /** Lookup does not see the case of the name asked for. */
  lemma GetIgnoresCase(hs: Headers, a: string, b: string, default: string)
    requires SameName(a, b)
    ensures Get(hs, a, default) == Get(hs, b, default)
  {
    var r, s := Find(hs, a), Find(hs, b);
    if r.Some? && s.Some? {
      assert r.value == s.value;
    }
  }

  /** After `add`, a lookup finds the added value unless an earlier header already answers. */
  lemma GetAfterAdd(hs: Headers, name: string, value: string, other: string, default: string)
    ensures Get(Add(hs, name, value), other, default) ==
      if Find(hs, other).Some? then Get(hs, other, default)
      else if SameName(name, other) then value
      else default
  {
    var a := Add(hs, name, value);
    assert forall i :: 0 <= i < |hs| ==> a[i] == hs[i];
    if Find(hs, other).Some? {
      GetFirst(a, Find(hs, other).value, other, default);
    } else if SameName(name, other) {
      GetFirst(a, |hs|, other, default);
    } else {
      GetMissing(a, other, default);
    }
  }
}
