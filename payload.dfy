/**
  The `application/x-www-form-urlencoded` body every POST sends:
  `Object.keys(form).map(k => enc(k) + '=' + enc(form[k])).join('&')`, with
  `enc` the `encodeURIComponent` of `UriComponent`. Because `enc` never
  produces `&` or `=`, splitting the body on `&` and each pair on its `=`
  and decoding gives back every field, in order.
*/
module FormPayload {
  import opened Options
  import opened OrderedMaps
  import opened UriComponent

  /** `${enc(k)}=${enc(v)}`. */
  function Pair(k: string, v: string): string {
    Encode(k) + "=" + Encode(v)
  }

  /** One pair per field, in key order. */
  function Pairs(f: OrderedMap): (ps: seq<string>)
    requires f.Valid()
    ensures |ps| == |f.keys|
    ensures forall i :: 0 <= i < |ps| ==> ps[i] == Pair(f.keys[i], f.vals[f.keys[i]])
  {
    seq(|f.keys|, i requires 0 <= i < |f.keys| => Pair(f.keys[i], f.vals[f.keys[i]]))
  }

  /** `parts.join(sep)`. */
  function Join(parts: seq<string>, sep: char): string {
    if |parts| == 0 then ""
    else if |parts| == 1 then parts[0]
    else parts[0] + [sep] + Join(parts[1..], sep)
  }

  /** The request body for a form. */
  function Payload(f: OrderedMap): string
    requires f.Valid()
  {
    Join(Pairs(f), '&')
  }

  /** The fields of a form as (name, value) pairs, in key order. */
  function Entries(f: OrderedMap): (es: seq<(string, string)>)
    requires f.Valid()
    ensures |es| == |f.keys|
    ensures forall i :: 0 <= i < |es| ==> es[i] == (f.keys[i], f.vals[f.keys[i]])
  {
    seq(|f.keys|, i requires 0 <= i < |f.keys| => (f.keys[i], f.vals[f.keys[i]]))
  }

  /** Every field of the form is among its entries. */
  lemma EntriesHas(f: OrderedMap, k: string)
    requires f.Valid() && k in f.vals
    ensures (k, f.vals[k]) in Entries(f)
  {
    var i :| 0 <= i < |f.keys| && f.keys[i] == k;
    assert Entries(f)[i] == (k, f.vals[k]);
  }

  // --------------------------------------------------------- reading it back

  /** Index of the first `c` in `s`, or `|s|` when there is none. */
  function IndexOf(s: string, c: char): (i: nat)
    ensures i <= |s|
    ensures i < |s| ==> s[i] == c
    ensures forall j :: 0 <= j < i ==> s[j] != c
  {
    if s == [] then 0 else if s[0] == c then 0 else 1 + IndexOf(s[1..], c)
  }

  /** `s.split(c)`: never empty; `""` splits into `[""]`. */
  function Split(s: string, c: char): (parts: seq<string>)
    ensures |parts| > 0
    decreases |s|
  {
    var i := IndexOf(s, c);
    if i == |s| then [s] else [s[..i]] + Split(s[i + 1..], c)
  }

  /** A name-value pair: split at the first `=` and decode both sides. */
  function ParsePair(s: string): Option<(string, string)> {
    var i := IndexOf(s, '=');
    if i == |s| then None
    else match (Decode(s[..i]), Decode(s[i + 1..]))
      case (Some(k), Some(v)) => Some((k, v))
      case _ => None
  }

  function ParseAll(parts: seq<string>): Option<seq<(string, string)>> {
    if parts == [] then Some([])
    else match (ParsePair(parts[0]), ParseAll(parts[1..]))
      case (Some(e), Some(es)) => Some([e] + es)
      case _ => None
  }

  /** A form-urlencoded body as (name, value) pairs; the empty body has none. */
  function ParsePayload(s: string): Option<seq<(string, string)>> {
    if s == "" then Some([]) else ParseAll(Split(s, '&'))
  }

  // -------------------------------------------------------------- the proof

  lemma IndexOfAbsent(s: string, c: char)
    requires forall j :: 0 <= j < |s| ==> s[j] != c
    ensures IndexOf(s, c) == |s|
  {
  }

  lemma IndexOfAfter(a: string, c: char, b: string)
    requires forall j :: 0 <= j < |a| ==> a[j] != c
    ensures IndexOf(a + [c] + b, c) == |a|
  {
    var s := a + [c] + b;
    assert s[|a|] == c;
    assert forall j :: 0 <= j < |a| ==> s[j] == a[j];
  }

  /** No part contains `c`. */
  predicate Free(parts: seq<string>, c: char) {
    forall i, j :: 0 <= i < |parts| && 0 <= j < |parts[i]| ==> parts[i][j] != c
  }

  /** Splitting a join on its separator gives the parts back. */
  lemma {:induction false} SplitJoin(parts: seq<string>, c: char)
    requires |parts| > 0 && Free(parts, c)
    ensures Split(Join(parts, c), c) == parts
  {
    if |parts| == 1 {
      IndexOfAbsent(parts[0], c);
    } else {
      var s := Join(parts, c);
      var rest := Join(parts[1..], c);
      assert s == parts[0] + [c] + rest;
      IndexOfAfter(parts[0], c, rest);
      assert s[..|parts[0]|] == parts[0];
      assert s[|parts[0]| + 1..] == rest;
      SplitJoin(parts[1..], c);
      assert [parts[0]] + parts[1..] == parts;
    }
  }

  /** One pair reads back as its name and value. */
  lemma ParsePairOf(k: string, v: string)
    ensures ParsePair(Pair(k, v)) == Some((k, v))
  {
    var s := Pair(k, v);
    var ek := Encode(k);
    IndexOfAfter(ek, '=', Encode(v));
    assert s[..|ek|] == ek;
    assert s[|ek| + 1..] == Encode(v);
    DecodeEncode(k);
    DecodeEncode(v);
  }

  /** Pairs built from entries read back as those entries. */
  lemma {:induction false} ParseAllPairs(ps: seq<string>, es: seq<(string, string)>)
    requires |ps| == |es|
    requires forall i :: 0 <= i < |ps| ==> ps[i] == Pair(es[i].0, es[i].1)
    ensures ParseAll(ps) == Some(es)
  {
    if ps != [] {
      ParsePairOf(es[0].0, es[0].1);
      ParseAllPairs(ps[1..], es[1..]);
      assert [es[0]] + es[1..] == es;
    }
  }

  /**
    The body is one `enc(k)=enc(v)` pair per field, in key order, joined by
    `&`, and reading it back gives every field with its value, in order.
  */
  lemma PayloadRoundTrip(f: OrderedMap)
    requires f.Valid()
    ensures |f.keys| > 0 ==> Split(Payload(f), '&') == Pairs(f)
    ensures ParsePayload(Payload(f)) == Some(Entries(f))
  {
    var ps := Pairs(f);
    if |ps| > 0 {
      PairsFree(f);
      SplitJoin(ps, '&');
      JoinStarts(ps, '&');
      ParseAllPairs(ps, Entries(f));
    }
  }

  /** No pair contains `&`, and none is empty. */
  lemma PairsFree(f: OrderedMap)
    requires f.Valid()
    ensures Free(Pairs(f), '&')
    ensures forall i :: 0 <= i < |Pairs(f)| ==> |Pairs(f)[i]| > 0
  {
    var ps := Pairs(f);
    forall i, j | 0 <= i < |ps| && 0 <= j < |ps[i]|
      ensures ps[i][j] != '&'
    {
      PairFree(f.keys[i], f.vals[f.keys[i]], j);
    }
  }

  lemma PairFree(k: string, v: string, j: nat)
    requires j < |Pair(k, v)|
    ensures Pair(k, v)[j] != '&'
  {
    var ek := Encode(k);
    if j < |ek| {
      assert Pair(k, v)[j] == ek[j];
    } else if j > |ek| {
      assert Pair(k, v)[j] == Encode(v)[j - |ek| - 1];
    }
  }

  lemma JoinStarts(parts: seq<string>, c: char)
    requires |parts| > 0
    ensures |Join(parts, c)| >= |parts[0]|
  {
  }
}
