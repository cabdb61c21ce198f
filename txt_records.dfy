/**
  Specification of the TXT-record form rewrite: the sparse `records` array
  that `recordsFromForm` builds from the provider's form, the find/update or
  append step of `addTxtRecord` and `delTxtRecord`, the `del` marker pass and
  the write-back of every record property into the form.
*/
module TxtRecords {
  import opened Options
  import opened OrderedMaps
  import opened FieldKeys

  /** The provider form: field name to field value, in document order. */
  type Form = OrderedMap
  /** One TXT record object: property name (`host`, `txt`, `ttl`, `del`, ...) to value. */
  type Rec = OrderedMap
  /** The `records` array; `None` is a hole, an index no form field mentions. */
  type Records = seq<Option<Rec>>

  /** A form the record code can read: every field name classifies. */
  ghost predicate WellFormed(f: Form) {
    f.Valid() && forall s {:trigger ParseKey(s)} :: s in f.vals ==> ParseKey(s).Some?
  }

  /** Every record is a valid map whose property names print back to field names. */
  ghost predicate RecordsOk(r: Records) {
    forall i :: 0 <= i < |r| && r[i].Some? ==>
      r[i].value.Valid() && forall p :: p in r[i].value.vals ==> NoSep(p)
  }

  function Holes(n: nat): (r: Records)
    ensures |r| == n && forall i :: 0 <= i < n ==> r[i].None?
  {
    seq(n, _ => None)
  }

  /**
    One iteration of the `forEach` in `recordsFromForm`: a field `TXT::i::p`
    creates `records[i]` when it is missing (growing the array with holes) and
    sets its property `p`; any other field leaves the array alone.
  */
  function Place(r: Records, s: string, v: string): Records {
    match ParseKey(s)
    case Some(Txt(i, p)) => SetProp(r, i, p, v)
    case _ => r
  }

  /** `records[i][p] = v`, creating `records[i] = {}` first when it is missing. */
  function SetProp(r: Records, i: nat, p: string, v: string): (r': Records)
    ensures |r'| == if i < |r| then |r| else i + 1
    ensures r'[i] == Some((if i < |r| && r[i].Some? then r[i].value else Empty()).Put(p, v))
    ensures forall j :: 0 <= j < |r'| && j != i ==> r'[j] == if j < |r| then r[j] else None
  {
    var padded := if i < |r| then r else r + Holes(i + 1 - |r|);
    var rec := if padded[i].Some? then padded[i].value else Empty();
    padded[i := Some(rec.Put(p, v))]
  }

  /** The array after the first `n` fields of `f` have been visited. */
  function Collect(f: Form, n: nat): Records
    requires f.Valid() && n <= |f.keys|
  {
    if n == 0 then [] else Place(Collect(f, n - 1), f.keys[n - 1], f.vals[f.keys[n - 1]])
  }

  function RecordsOf(f: Form): Records
    requires f.Valid()
  {
    Collect(f, |f.keys|)
  }

  /** Every record property comes from one of the first `n` fields. */
  ghost predicate Sound(f: Form, n: nat, r: Records)
    requires n <= |f.keys|
  {
    forall i :: 0 <= i < |r| && r[i].Some? ==>
      r[i].value.Valid() && |r[i].value.keys| > 0 &&
      forall p :: p in r[i].value.vals ==> NoSep(p) && TxtKey(i, p) in f.keys[..n]
  }

  lemma PlaceSound(f: Form, n: nat, r: Records)
    requires WellFormed(f) && 0 < n <= |f.keys| && Sound(f, n - 1, r)
    ensures f.keys[n - 1] in f.vals
    ensures Sound(f, n, Place(r, f.keys[n - 1], f.vals[f.keys[n - 1]]))
  {
    var s := f.keys[n - 1];
    assert s in f.vals;
    assert f.keys[..n] == f.keys[..n - 1] + [s];
    var key := ParseKey(s).value;
    if key.Txt? {
      SetPropSound(f, n, r, key.index, key.prop);
    }
  }

  lemma SetPropSound(f: Form, n: nat, r: Records, i: nat, p: string)
    requires 0 < n <= |f.keys| && Sound(f, n - 1, r)
    requires NoSep(p) && f.keys[..n] == f.keys[..n - 1] + [TxtKey(i, p)]
    ensures forall v :: Sound(f, n, SetProp(r, i, p, v))
  {
    forall v ensures Sound(f, n, SetProp(r, i, p, v)) {
      var r' := SetProp(r, i, p, v);
      forall j | 0 <= j < |r'| && r'[j].Some?
        ensures r'[j].value.Valid() && |r'[j].value.keys| > 0
        ensures forall q :: q in r'[j].value.vals ==> NoSep(q) && TxtKey(j, q) in f.keys[..n]
      {
        assert forall x :: x in f.keys[..n - 1] ==> x in f.keys[..n];
      }
    }
  }

  lemma PlaceLastFilled(r: Records, s: string, v: string)
    requires |r| > 0 ==> r[|r| - 1].Some?
    ensures var r' := Place(r, s, v); |r'| > 0 ==> r'[|r'| - 1].Some?
  {
  }

  /**
    The array built from the first `n` fields records each of them: a field
    `TXT::i::p` among them is there as `r[i][p]`, with the field's value.
  */
  lemma {:induction false} CollectCovers(f: Form, n: nat, i: nat, p: string)
    requires WellFormed(f) && n <= |f.keys| && NoSep(p) && TxtKey(i, p) in f.keys[..n]
    ensures var r := Collect(f, n);
      TxtKey(i, p) in f.vals && i < |r| && r[i].Some? && p in r[i].value.vals &&
      r[i].value.vals[p] == f.vals[TxtKey(i, p)]
  {
    var s := f.keys[n - 1];
    assert s in f.vals;
    assert f.keys[..n] == f.keys[..n - 1] + [s];
    if s == TxtKey(i, p) {
      KeyRoundTrip(Txt(i, p));
    } else {
      CollectCovers(f, n - 1, i, p);
      PlaceKeeps(Collect(f, n - 1), s, f.vals[s], i, p);
    }
  }

  /** Visiting a field other than `TXT::i::p` keeps `r[i][p]`. */
  lemma PlaceKeeps(r: Records, s: string, v: string, i: nat, p: string)
    requires s != TxtKey(i, p) && i < |r| && r[i].Some? && p in r[i].value.vals
    ensures var r' := Place(r, s, v);
      i < |r'| && r'[i].Some? && p in r'[i].value.vals && r'[i].value.vals[p] == r[i].value.vals[p]
  {
    if ParseKey(s).Some? && ParseKey(s).value.Txt? {
      assert KeyString(ParseKey(s).value) == s;
    }
  }

  /** The array built from the first `n` fields holds nothing else. */
  lemma {:induction false} CollectSound(f: Form, n: nat)
    requires WellFormed(f) && n <= |f.keys|
    ensures Sound(f, n, Collect(f, n))
  {
    if n > 0 {
      var prev := Collect(f, n - 1);
      assert Sound(f, n - 1, prev) by { CollectSound(f, n - 1); }
      PlaceSound(f, n, prev);
      assert Collect(f, n) == Place(prev, f.keys[n - 1], f.vals[f.keys[n - 1]]);
    }
  }

  /** The array never ends in a hole. */
  lemma {:induction false} CollectLastFilled(f: Form, n: nat)
    requires f.Valid() && n <= |f.keys|
    ensures var r := Collect(f, n); |r| > 0 ==> r[|r| - 1].Some?
  {
    if n > 0 {
      CollectLastFilled(f, n - 1);
      PlaceLastFilled(Collect(f, n - 1), f.keys[n - 1], f.vals[f.keys[n - 1]]);
    }
  }

  /**
    What `recordsFromForm` returns, first half: every field `TXT::i::p` of the
    form is there as `records[i][p]`, with the field's value.
  */
  lemma RecordsOfCover(f: Form)
    requires WellFormed(f)
    ensures var r := RecordsOf(f);
      forall i: nat, p :: TxtKey(i, p) in f.vals && NoSep(p) ==>
        i < |r| && r[i].Some? && p in r[i].value.vals &&
        r[i].value.vals[p] == f.vals[TxtKey(i, p)]
  {
    var r := RecordsOf(f);
    assert f.keys[..|f.keys|] == f.keys;
    forall i: nat, p | TxtKey(i, p) in f.vals && NoSep(p)
      ensures i < |r| && r[i].Some? && p in r[i].value.vals && r[i].value.vals[p] == f.vals[TxtKey(i, p)]
    {
      CollectCovers(f, |f.keys|, i, p);
    }
  }

  /**
    Second half: nothing else is there. Each record comes from at least one
    field (an index no field mentions is a hole), each property from its field,
    and the array never ends in a hole.
  */
  lemma RecordsOfSound(f: Form)
    requires WellFormed(f)
    ensures var r := RecordsOf(f);
      && RecordsOk(r)
      && (forall i :: 0 <= i < |r| && r[i].Some? ==>
            |r[i].value.keys| > 0 &&
            forall p :: p in r[i].value.vals ==> TxtKey(i, p) in f.vals)
      && (|r| > 0 ==> r[|r| - 1].Some?)
  {
    CollectSound(f, |f.keys|);
    CollectLastFilled(f, |f.keys|);
    assert f.keys[..|f.keys|] == f.keys;
  }

  /**
    `r` is exactly what `recordsFromForm` extracts from `f`, up to the order of
    each record's properties: the two halves above, stated for any array.
  */
  ghost predicate Extracted(f: Form, r: Records) {
    && RecordsOk(r)
    && (forall i: nat, p :: TxtKey(i, p) in f.vals && NoSep(p) ==>
          i < |r| && r[i].Some? && p in r[i].value.vals &&
          r[i].value.vals[p] == f.vals[TxtKey(i, p)])
    && (forall i :: 0 <= i < |r| && r[i].Some? ==>
          |r[i].value.keys| > 0 &&
          forall p :: p in r[i].value.vals ==> TxtKey(i, p) in f.vals)
    && (|r| > 0 ==> r[|r| - 1].Some?)
  }

  lemma RecordsOfExtracted(f: Form)
    requires WellFormed(f)
    ensures Extracted(f, RecordsOf(f))
  {
    RecordsOfCover(f);
    RecordsOfSound(f);
  }

  /** Fields other than `TXT::i::p` ones do not contribute to the records. */
  lemma {:induction false} CollectIgnoresPlain(f: Form, s: string, v: string, n: nat)
    requires f.Valid() && !HasTxtPrefix(s) && n <= |f.keys|
    ensures f.Put(s, v).Valid() && n <= |f.Put(s, v).keys|
    ensures Collect(f.Put(s, v), n) == Collect(f, n)
  {
    if n > 0 {
      CollectIgnoresPlain(f, s, v, n - 1);
      var g := f.Put(s, v);
      var k := f.keys[n - 1];
      assert k in f.vals && g.keys[n - 1] == k;
      if k == s {
        assert ParseKey(s) == Some(Plain(s));
      } else {
        assert g.vals[k] == f.vals[k];
      }
    }
  }

  /** Setting an opaque field leaves the extracted records unchanged. */
  lemma RecordsIgnorePlain(f: Form, s: string, v: string)
    requires f.Valid() && !HasTxtPrefix(s)
    ensures f.Put(s, v).Valid()
    ensures RecordsOf(f.Put(s, v)) == RecordsOf(f)
  {
    CollectIgnoresPlain(f, s, v, |f.keys|);
    if s !in f.vals {
      var g := f.Put(s, v);
      assert g.keys[|f.keys|] == s && g.vals[s] == v;
      assert ParseKey(s) == Some(Plain(s));
      assert RecordsOf(g) == Place(Collect(g, |f.keys|), s, v);
    }
  }

  // ---------------------------------------------------------------- finding

  /** `r.host === host` for a record object. */
  predicate HostIs(rec: Rec, host: string) {
    rec.Get("host") == Some(host)
  }

  /**
    Outcome of `records.find(r => r.host === host)`: the first matching index,
    no match, or a hole reached first, where `r.host` on `undefined` throws.
  */
  datatype Lookup = Found(index: nat) | Absent | HitHole(index: nat) {
    /** How far the scan got over an array of length `n`. */
    function Reached(n: nat): nat {
      match this
      case Found(j) => j
      case HitHole(j) => j
      case Absent => n
    }
  }

  function FindFrom(r: Records, host: string, start: nat): (l: Lookup)
    requires start <= |r|
    ensures l.Found? ==> start <= l.index < |r| && r[l.index].Some? && HostIs(r[l.index].value, host)
    ensures l.HitHole? ==> start <= l.index < |r| && r[l.index].None?
    ensures l.Reached(|r|) <= |r|
    ensures forall i :: start <= i < l.Reached(|r|) ==> r[i].Some? && !HostIs(r[i].value, host)
    decreases |r| - start
  {
    if start == |r| then Absent
    else if r[start].None? then HitHole(start)
    else if HostIs(r[start].value, host) then Found(start)
    else FindFrom(r, host, start + 1)
  }

  function Find(r: Records, host: string): Lookup {
    FindFrom(r, host, 0)
  }

  // -------------------------------------------------------- the record edit

  /** `{host, txt: value, ttl: ''}`, in that property order. */
  function NewRecord(host: string, value: string): Rec {
    Empty().Put("host", host).Put("txt", value).Put("ttl", "")
  }

  /**
    The common first half of both transforms: the first record carrying the
    host gets `txt = value`, or a new record is pushed when none does. `None`
    when the scan throws on a hole.
  */
  function Upsert(r: Records, host: string, value: string): Option<Records> {
    match Find(r, host)
    case HitHole(_) => None
    case Found(j) => Some(r[j := Some(r[j].value.Put("txt", value))])
    case Absent => Some(r + [Some(NewRecord(host, value))])
  }

  /** Index of the record the transforms edit or append. */
  function TargetIndex(r: Records, host: string): nat {
    match Find(r, host)
    case Found(j) => j
    case _ => |r|
  }

  /** `delete r.del` on every record (the add transform). */
  function ClearDel(r: Records): (r': Records)
    ensures |r'| == |r|
  {
    seq(|r|, i requires 0 <= i < |r| => if r[i].Some? then Some(r[i].value.Remove("del")) else None)
  }

  /** `r.del = 1` on every record carrying the host, `delete r.del` on the others. */
  function MarkDel(r: Records, host: string): (r': Records)
    ensures |r'| == |r|
  {
    seq(|r|, i requires 0 <= i < |r| =>
      if r[i].None? then None
      else if HostIs(r[i].value, host) then Some(r[i].value.Put("del", "1"))
      else Some(r[i].value.Remove("del")))
  }

  // ------------------------------------------------------------- write-back

  /** `form[TXT::${i}::${k}] = r[k]` for the first `m` keys of record `rec`. */
  function WriteProps(f: Form, i: nat, rec: Rec, m: nat): Form
    requires m <= |rec.keys|
  {
    if m == 0 then f
    else
      var g := WriteProps(f, i, rec, m - 1);
      var k := rec.keys[m - 1];
      // the keys of a valid record always have a value
      if k in rec.vals then g.Put(TxtKey(i, k), rec.vals[k]) else g
  }

  /** The write-back `forEach` over the first `n` elements; holes are skipped. */
  function WriteRecords(f: Form, r: Records, n: nat): Form
    requires n <= |r|
  {
    if n == 0 then f
    else
      var g := WriteRecords(f, r, n - 1);
      if r[n - 1].Some? then WriteProps(g, n - 1, r[n - 1].value, |r[n - 1].value.keys|) else g
  }

  function WriteBack(f: Form, r: Records): Form {
    WriteRecords(f, r, |r|)
  }

  /** Writing a record field keeps the form readable. */
  lemma PutTxtWellFormed(h: Form, i: nat, p: string, v: string)
    requires WellFormed(h) && NoSep(p)
    ensures WellFormed(h.Put(TxtKey(i, p), v))
  {
    KeyRoundTrip(Txt(i, p));
  }

  /** Two properties of the same record are written to different fields. */
  lemma TxtKeysDiffer(i: nat, p: string, j: nat, q: string)
    requires NoSep(p) && NoSep(q) && (i, p) != (j, q)
    ensures TxtKey(i, p) != TxtKey(j, q)
  {
    if TxtKey(i, p) == TxtKey(j, q) {
      KeyStringInjective(Txt(i, p), Txt(j, q));
    }
  }

  /** Whether the write-back of the first `n` records writes `TXT::i::p`. */
  predicate Writes(r: Records, n: nat, i: nat, p: string)
    requires n <= |r|
  {
    i < n && r[i].Some? && p in r[i].value.vals
  }

  /** Writing a record back removes no field and keeps the existing fields in order. */
  lemma {:induction false} WritePropsKeys(f: Form, i: nat, rec: Rec, m: nat)
    requires m <= |rec.keys|
    ensures f.keys <= WriteProps(f, i, rec, m).keys
    ensures f.vals.Keys <= WriteProps(f, i, rec, m).vals.Keys
  {
    if m > 0 {
      WritePropsKeys(f, i, rec, m - 1);
    }
  }

  /** An opaque field is not touched by the write-back of a record. */
  lemma {:induction false} WritePropsPlain(f: Form, i: nat, rec: Rec, m: nat, s: string)
    requires m <= |rec.keys| && !HasTxtPrefix(s)
    ensures WriteProps(f, i, rec, m).Get(s) == f.Get(s)
  {
    if m > 0 {
      WritePropsPlain(f, i, rec, m - 1, s);
    }
  }

  /** A record field of another index, or of a property the record lacks, is not touched. */
  lemma {:induction false} WritePropsOther(f: Form, i: nat, rec: Rec, m: nat, j: nat, p: string)
    requires m <= |rec.keys| && NoSep(p) && (forall q :: q in rec.vals ==> NoSep(q))
    requires j != i || p !in rec.vals
    ensures WriteProps(f, i, rec, m).Get(TxtKey(j, p)) == f.Get(TxtKey(j, p))
  {
    if m > 0 {
      WritePropsOther(f, i, rec, m - 1, j, p);
      var k := rec.keys[m - 1];
      if k in rec.vals {
        TxtKeysDiffer(j, p, i, k);
      }
    }
  }

  /** Writing a record back puts each of its properties into `TXT::i::p`. */
  lemma {:induction false} WritePropsValue(f: Form, i: nat, rec: Rec, m: nat, p: string)
    requires rec.Valid() && m <= |rec.keys| && (forall q :: q in rec.vals ==> NoSep(q))
    requires p in rec.keys[..m]
    ensures p in rec.vals && WriteProps(f, i, rec, m).Get(TxtKey(i, p)) == Some(rec.vals[p])
  {
    var k := rec.keys[m - 1];
    assert rec.keys[..m] == rec.keys[..m - 1] + [k];
    assert k in rec.vals;
    if p != k {
      WritePropsValue(f, i, rec, m - 1, p);
      TxtKeysDiffer(i, p, i, k);
    }
  }

  /** Writing a record back keeps the form readable. */
  lemma {:induction false} WritePropsWellFormed(f: Form, i: nat, rec: Rec, m: nat)
    requires WellFormed(f) && m <= |rec.keys|
    requires forall p :: p in rec.vals ==> NoSep(p)
    ensures WellFormed(WriteProps(f, i, rec, m))
  {
    if m > 0 {
      WritePropsWellFormed(f, i, rec, m - 1);
      var k := rec.keys[m - 1];
      if k in rec.vals {
        PutTxtWellFormed(WriteProps(f, i, rec, m - 1), i, k, rec.vals[k]);
      }
    }
  }

  /** `WritePropsKeys` for the write-back of the first `n` records. */
  lemma {:induction false} WriteRecordsKeys(f: Form, r: Records, n: nat)
    requires n <= |r|
    ensures f.keys <= WriteRecords(f, r, n).keys
    ensures f.vals.Keys <= WriteRecords(f, r, n).vals.Keys
  {
    if n > 0 {
      WriteRecordsKeys(f, r, n - 1);
      if r[n - 1].Some? {
        WritePropsKeys(WriteRecords(f, r, n - 1), n - 1, r[n - 1].value, |r[n - 1].value.keys|);
      }
    }
  }

  /** `WritePropsPlain` for the write-back of the first `n` records. */
  lemma {:induction false} WriteRecordsPlain(f: Form, r: Records, n: nat, s: string)
    requires n <= |r| && !HasTxtPrefix(s)
    ensures WriteRecords(f, r, n).Get(s) == f.Get(s)
  {
    if n > 0 {
      WriteRecordsPlain(f, r, n - 1, s);
      if r[n - 1].Some? {
        WritePropsPlain(WriteRecords(f, r, n - 1), n - 1, r[n - 1].value, |r[n - 1].value.keys|, s);
      }
    }
  }

  /** A field the first `n` records do not print keeps what it held, or stays absent. */
  lemma {:induction false} WriteRecordsOther(f: Form, r: Records, n: nat, j: nat, p: string)
    requires RecordsOk(r) && n <= |r| && NoSep(p) && !Writes(r, n, j, p)
    ensures WriteRecords(f, r, n).Get(TxtKey(j, p)) == f.Get(TxtKey(j, p))
  {
    if n > 0 {
      WriteRecordsOther(f, r, n - 1, j, p);
      if r[n - 1].Some? {
        WritePropsOther(WriteRecords(f, r, n - 1), n - 1, r[n - 1].value, |r[n - 1].value.keys|, j, p);
      }
    }
  }

  /** A property one of the first `n` records prints ends up in its field. */
  lemma {:induction false} WriteRecordsValue(f: Form, r: Records, n: nat, i: nat, p: string)
    requires RecordsOk(r) && n <= |r| && Writes(r, n, i, p)
    ensures WriteRecords(f, r, n).Get(TxtKey(i, p)) == Some(r[i].value.vals[p])
  {
    var h := WriteRecords(f, r, n - 1);
    if i == n - 1 {
      var rec := r[i].value;
      assert rec.keys[..|rec.keys|] == rec.keys;
      WritePropsValue(h, i, rec, |rec.keys|, p);
    } else {
      WriteRecordsValue(f, r, n - 1, i, p);
      if r[n - 1].Some? {
        WritePropsOther(h, n - 1, r[n - 1].value, |r[n - 1].value.keys|, i, p);
      }
    }
  }

  /**
    The write-back of the first `n` records removes no field and keeps the
    existing fields in order; opaque fields, and record fields the records do
    not print, keep their values; the only fields added are printed ones.
  */
  lemma WriteRecordsFrame(f: Form, r: Records, n: nat)
    requires RecordsOk(r) && n <= |r|
    ensures var g := WriteRecords(f, r, n);
      && f.keys <= g.keys
      && f.vals.Keys <= g.vals.Keys
      && (forall s :: s in f.vals && !HasTxtPrefix(s) ==> g.vals[s] == f.vals[s])
      && (forall j: nat, p :: TxtKey(j, p) in f.vals && NoSep(p) && !Writes(r, n, j, p) ==>
            g.vals[TxtKey(j, p)] == f.vals[TxtKey(j, p)])
      && (forall s :: s in g.vals && !HasTxtPrefix(s) ==> s in f.vals)
      && (forall j: nat, p :: TxtKey(j, p) in g.vals && NoSep(p) ==>
            TxtKey(j, p) in f.vals || Writes(r, n, j, p))
  {
    var g := WriteRecords(f, r, n);
    WriteRecordsKeys(f, r, n);
    forall s | !HasTxtPrefix(s) ensures g.Get(s) == f.Get(s) {
      WriteRecordsPlain(f, r, n, s);
    }
    forall j: nat, p | NoSep(p) && !Writes(r, n, j, p) ensures g.Get(TxtKey(j, p)) == f.Get(TxtKey(j, p)) {
      WriteRecordsOther(f, r, n, j, p);
    }
  }

  /** The write-back keeps the form readable. */
  lemma {:induction false} WriteRecordsWellFormed(f: Form, r: Records, n: nat)
    requires WellFormed(f) && RecordsOk(r) && n <= |r|
    ensures WellFormed(WriteRecords(f, r, n))
  {
    if n > 0 {
      WriteRecordsWellFormed(f, r, n - 1);
      if r[n - 1].Some? {
        WritePropsWellFormed(WriteRecords(f, r, n - 1), n - 1, r[n - 1].value, |r[n - 1].value.keys|);
      }
    }
  }

  /** Every property the first `n` records print ends up in its field. */
  lemma WriteRecordsValues(f: Form, r: Records, n: nat)
    requires RecordsOk(r) && n <= |r|
    ensures var g := WriteRecords(f, r, n);
      forall i: nat, p :: Writes(r, n, i, p) ==>
        TxtKey(i, p) in g.vals && g.vals[TxtKey(i, p)] == r[i].value.vals[p]
  {
    forall i: nat, p | Writes(r, n, i, p)
      ensures WriteRecords(f, r, n).Get(TxtKey(i, p)) == Some(r[i].value.vals[p])
    {
      WriteRecordsValue(f, r, n, i, p);
    }
  }

  /** The write-back followed by `form.next = ''`. */
  function Rewrite(f: Form, r: Records): Form {
    WriteBack(f, r).Put("next", "")
  }

  /** `addTxtRecord(form)` with the target host and value as parameters; None when it throws. */
  function AddForm(f: Form, host: string, value: string): Option<Form>
    requires f.Valid()
  {
    match Upsert(RecordsOf(f), host, value)
    case None => None
    case Some(r) => Some(Rewrite(f, ClearDel(r)))
  }

  /** `delTxtRecord(form)` with the target host and value as parameters; None when it throws. */
  function DelForm(f: Form, host: string, value: string): Option<Form>
    requires f.Valid()
  {
    match Upsert(RecordsOf(f), host, value)
    case None => None
    case Some(r) => Some(Rewrite(f, MarkDel(r, host)))
  }

  // ------------------------------------------------- effect of the transforms

  /** `form["TXT::i::host"] === host`: the form holds a record `i` for the host. */
  predicate HostedAt(f: Form, i: nat, host: string) {
    f.Get(TxtKey(i, "host")) == Some(host)
  }

  /** The property names the transforms use can be printed into field names. */
  lemma FixedPropsNoSep()
    ensures NoSep("host") && NoSep("txt") && NoSep("ttl") && NoSep("del")
  {
    NoColonNoSep("host");
    NoColonNoSep("txt");
    NoColonNoSep("ttl");
    NoColonNoSep("del");
  }

  /** The property names the transforms use are different names. */
  lemma DistinctProps()
    ensures "host" != "txt" && "host" != "ttl" && "host" != "del"
    ensures "txt" != "ttl" && "txt" != "del" && "ttl" != "del"
  {
    assert "txt"[0] != "del"[0] && "ttl"[0] != "del"[0] && "txt"[1] != "ttl"[1];
  }

  /** A record of the array carries the host exactly when the form says so. */
  lemma HostedIff(f: Form, r: Records, host: string)
    requires Extracted(f, r)
    ensures forall i: nat :: HostedAt(f, i, host) <==> i < |r| && r[i].Some? && HostIs(r[i].value, host)
  {
    FixedPropsNoSep();
  }

  /** `HostedIff` at one index. */
  lemma HostedIffAt(f: Form, r: Records, host: string, i: nat)
    requires Extracted(f, r)
    ensures HostedAt(f, i, host) <==> i < |r| && r[i].Some? && HostIs(r[i].value, host)
  {
    FixedPropsNoSep();
    if HostedAt(f, i, host) {
      ExtractedProp(f, r, i, "host");
    }
  }

  /**
    The find/update-or-push step: the target record ends up with the host and
    the new `txt`, an existing one keeps its other properties, a pushed one is
    `{host, txt, ttl: ''}`, and every other record is untouched.
  */
  lemma UpsertShape(r: Records, host: string, value: string)
    requires RecordsOk(r) && Upsert(r, host, value).Some?
    ensures var r2 := Upsert(r, host, value).value;
      var j := TargetIndex(r, host);
      && RecordsOk(r2)
      && j <= |r| && |r2| == (if j < |r| then |r| else |r| + 1)
      && r2[j].Some? && r2[j].value.Get("host") == Some(host) && r2[j].value.Get("txt") == Some(value)
      && (j < |r| ==> r[j].Some? && r2[j].value.vals == r[j].value.vals["txt" := value])
      && (j == |r| ==> r2[j].value == NewRecord(host, value))
      && (forall i :: 0 <= i < |r| && i != j ==> r2[i] == r[i])
  {
    FixedPropsNoSep();
    if Find(r, host).Found? {
      UpsertFound(r, host, value);
    } else {
      UpsertPushed(r, host, value);
      NewRecordOk(host, value);
    }
  }

  lemma UpsertFound(r: Records, host: string, value: string)
    requires RecordsOk(r) && Find(r, host).Found?
    ensures var r2 := Upsert(r, host, value).value;
      var j := Find(r, host).index;
      && RecordsOk(r2)
      && |r2| == |r| && r2[j].Some? && HostIs(r2[j].value, host) && r2[j].value.Get("txt") == Some(value)
      && r2[j].value.vals == r[j].value.vals["txt" := value]
      && (forall i :: 0 <= i < |r| && i != j ==> r2[i] == r[i])
  {
    var j := Find(r, host).index;
    var rec := r[j].value.Put("txt", value);
    var r2 := r[j := Some(rec)];
    assert Upsert(r, host, value).value == r2;
    assert "host" != "txt";
    FixedPropsNoSep();
    forall i | 0 <= i < |r2| && r2[i].Some?
      ensures r2[i].value.Valid() && forall p :: p in r2[i].value.vals ==> NoSep(p)
    {
      if i != j {
        assert r2[i] == r[i];
      }
    }
  }

  lemma UpsertPushed(r: Records, host: string, value: string)
    requires RecordsOk(r) && Find(r, host).Absent?
    ensures Upsert(r, host, value).value == r + [Some(NewRecord(host, value))]
    ensures RecordsOk(Upsert(r, host, value).value)
  {
    var rec := NewRecord(host, value);
    assert rec.Valid() && forall p :: p in rec.vals ==> NoSep(p) by {
      NewRecordOk(host, value);
    }
    RecordsOkAppend(r, rec);
  }

  /** Appending a valid record keeps the records valid. */
  lemma RecordsOkAppend(r: Records, rec: Rec)
    requires RecordsOk(r) && rec.Valid() && forall p :: p in rec.vals ==> NoSep(p)
    ensures RecordsOk(r + [Some(rec)])
  {
    var r2 := r + [Some(rec)];
    forall i | 0 <= i < |r2| && r2[i].Some?
      ensures r2[i].value.Valid() && forall p :: p in r2[i].value.vals ==> NoSep(p)
    {
      if i < |r| {
        assert r2[i] == r[i];
      }
    }
  }

  /** The pushed record is valid, carries the host, the value and an empty `ttl`, and nothing else. */
  lemma NewRecordOk(host: string, value: string)
    ensures var rec := NewRecord(host, value);
      && rec.Valid()
      && rec.vals == map["host" := host, "txt" := value, "ttl" := ""]
      && HostIs(rec, host) && rec.Get("txt") == Some(value) && rec.Get("ttl") == Some("")
      && forall p :: p in rec.vals ==> NoSep(p)
  {
    DistinctProps();
    FixedPropsNoSep();
  }

  /**
    The target index in terms of the form: the first index whose `host` field
    is the host, or, when there is none, one past the last record.
  */
  lemma TargetFacts(f: Form, r: Records, host: string)
    requires Extracted(f, r) && !Find(r, host).HitHole?
    ensures var j := TargetIndex(r, host);
      && (forall i: nat :: i < j ==> !HostedAt(f, i, host))
      && (j < |r| <==> HostedAt(f, j, host))
      && (j >= |r| ==> forall i: nat :: !HostedAt(f, i, host))
  {
    HostedIff(f, r, host);
  }

  /** What the write-back of `r3` leaves in field `TXT::i::p`, and the form stays readable. */
  lemma WriteBackFacts(f: Form, r3: Records)
    requires WellFormed(f) && RecordsOk(r3)
    ensures var g := WriteBack(f, r3);
      && WellFormed(g)
      && f.keys <= g.keys
      && f.vals.Keys <= g.vals.Keys
      && (forall s :: s in f.vals && !HasTxtPrefix(s) ==> g.vals[s] == f.vals[s])
      && (forall s :: s in g.vals && !HasTxtPrefix(s) ==> s in f.vals)
      && (forall i: nat, p :: TxtKey(i, p) in f.vals && NoSep(p) && !Writes(r3, |r3|, i, p) ==>
            g.vals[TxtKey(i, p)] == f.vals[TxtKey(i, p)])
      && (forall i: nat, p :: Writes(r3, |r3|, i, p) ==>
            TxtKey(i, p) in g.vals && g.vals[TxtKey(i, p)] == r3[i].value.vals[p])
      && (forall i: nat, p :: TxtKey(i, p) in g.vals && NoSep(p) ==>
            TxtKey(i, p) in f.vals || Writes(r3, |r3|, i, p))
  {
    WriteRecordsFrame(f, r3, |r3|);
    WriteRecordsValues(f, r3, |r3|);
    WriteRecordsWellFormed(f, r3, |r3|);
  }

  /** `next` is an ordinary field: it is not a record field. */
  lemma NextIsPlain()
    ensures !HasTxtPrefix("next") && ParseKey("next") == Some(Plain("next"))
  {
  }

  /**
    The rewrite of the form from an array whose printed properties agree with
    the form, except property `q` of record `j` and the `del` properties: the
    form stays readable, keeps its fields in order, `next` becomes empty and
    every other field keeps its value unless the array prints a new one there.
  */
  lemma RewriteFacts(f: Form, r3: Records, j: nat, q: string)
    requires WellFormed(f) && RecordsOk(r3)
    requires forall i: nat, p :: Writes(r3, |r3|, i, p) && TxtKey(i, p) in f.vals && NoSep(p) && (i, p) != (j, q) && p != "del" ==>
      r3[i].value.vals[p] == f.vals[TxtKey(i, p)]
    ensures var g := Rewrite(f, r3);
      && WellFormed(g)
      && f.keys <= g.keys
      && g.Get("next") == Some("")
      && (forall s :: s in f.vals && !HasTxtPrefix(s) && s != "next" ==> s in g.vals && g.vals[s] == f.vals[s])
      && (forall s :: s in g.vals && !HasTxtPrefix(s) ==> s in f.vals || s == "next")
      && (forall i: nat, p :: TxtKey(i, p) in f.vals && NoSep(p) && (i, p) != (j, q) && !(p == "del" && Writes(r3, |r3|, i, p)) ==>
            TxtKey(i, p) in g.vals && g.vals[TxtKey(i, p)] == f.vals[TxtKey(i, p)])
      && (forall i: nat, p :: Writes(r3, |r3|, i, p) ==>
            TxtKey(i, p) in g.vals && g.vals[TxtKey(i, p)] == r3[i].value.vals[p])
      && (forall i: nat, p :: TxtKey(i, p) in g.vals && NoSep(p) ==>
            TxtKey(i, p) in f.vals || Writes(r3, |r3|, i, p))
  {
    WriteBackFacts(f, r3);
    NextIsPlain();
  }

  /** `delete r.del` leaves valid records without a `del` property. */
  lemma ClearDelOk(r: Records)
    requires RecordsOk(r)
    ensures RecordsOk(ClearDel(r))
    ensures forall i :: 0 <= i < |r| && ClearDel(r)[i].Some? ==> "del" !in ClearDel(r)[i].value.vals
    ensures forall i :: 0 <= i < |r| ==> (ClearDel(r)[i].Some? <==> r[i].Some?)
    ensures forall i :: 0 <= i < |r| && r[i].Some? ==> ClearDel(r)[i].value.vals == r[i].value.vals - {"del"}
  {
  }

  /**
    After the update-or-push and `delete r.del`, every property the write-back
    will print still holds the form's value, except the target's `txt`.
  */
  lemma ClearDelKeeps(f: Form, r: Records, host: string, value: string)
    requires Extracted(f, r) && Upsert(r, host, value).Some?
    ensures var r3 := ClearDel(Upsert(r, host, value).value);
      var j := TargetIndex(r, host);
      forall i: nat, p :: Writes(r3, |r3|, i, p) && TxtKey(i, p) in f.vals && NoSep(p) && (i, p) != (j, "txt") ==>
        r3[i].value.vals[p] == f.vals[TxtKey(i, p)]
  {
    UpsertShape(r, host, value);
    var r2 := Upsert(r, host, value).value;
    var r3 := ClearDel(r2);
    var j := TargetIndex(r, host);
    forall i: nat, p | Writes(r3, |r3|, i, p) && TxtKey(i, p) in f.vals && NoSep(p) && (i, p) != (j, "txt")
      ensures r3[i].value.vals[p] == f.vals[TxtKey(i, p)]
    {
      assert i < |r|;
      assert r3[i].value.vals[p] == r2[i].value.vals[p];
    }
  }

  /** `AddFormFrame` for any array extracted from the form. */
  lemma AddFrameOn(f: Form, r: Records, host: string, value: string)
    requires WellFormed(f) && Extracted(f, r) && Upsert(r, host, value).Some?
    ensures var g := Rewrite(f, ClearDel(Upsert(r, host, value).value));
      var j := TargetIndex(r, host);
      && WellFormed(g)
      && f.keys <= g.keys
      && (forall s :: s in f.vals && !HasTxtPrefix(s) && s != "next" ==> s in g.vals && g.vals[s] == f.vals[s])
      && (forall i: nat, p :: TxtKey(i, p) in f.vals && NoSep(p) && (i, p) != (j, "txt") ==>
            TxtKey(i, p) in g.vals && g.vals[TxtKey(i, p)] == f.vals[TxtKey(i, p)])
  {
    UpsertShape(r, host, value);
    var r3 := ClearDel(Upsert(r, host, value).value);
    ClearDelOk(Upsert(r, host, value).value);
    ClearDelKeeps(f, r, host, value);
    RewriteFacts(f, r3, TargetIndex(r, host), "txt");
  }

  /**
    `addTxtRecord` removes no field and keeps the existing fields in order;
    every field other than `next` and the target's `TXT::j::txt` keeps its
    value. In particular a `TXT::i::del` field keeps its old value although
    the records lost their `del` property: form fields are only ever written.
  */
  lemma AddFormFrame(f: Form, host: string, value: string)
    requires WellFormed(f) && AddForm(f, host, value).Some?
    ensures var g := AddForm(f, host, value).value;
      var j := TargetIndex(RecordsOf(f), host);
      && WellFormed(g)
      && f.keys <= g.keys
      && (forall s :: s in f.vals && !HasTxtPrefix(s) && s != "next" ==> s in g.vals && g.vals[s] == f.vals[s])
      && (forall i: nat, p :: TxtKey(i, p) in f.vals && NoSep(p) && (i, p) != (j, "txt") ==>
            TxtKey(i, p) in g.vals && g.vals[TxtKey(i, p)] == f.vals[TxtKey(i, p)])
  {
    RecordsOfExtracted(f);
    AddFrameOn(f, RecordsOf(f), host, value);
  }

  /** A field the array does not print keeps what it held, or stays absent. */
  lemma RewriteUnwritten(f: Form, r3: Records, i: nat, p: string)
    requires RecordsOk(r3) && NoSep(p) && !Writes(r3, |r3|, i, p)
    ensures Rewrite(f, r3).Get(TxtKey(i, p)) == f.Get(TxtKey(i, p))
  {
    WriteRecordsOther(f, r3, |r3|, i, p);
    NextIsPlain();
  }

  /** A property the array prints ends up in its field after the rewrite. */
  lemma RewriteWrites(f: Form, r3: Records, i: nat, p: string)
    requires RecordsOk(r3) && Writes(r3, |r3|, i, p)
    ensures Rewrite(f, r3).Get(TxtKey(i, p)) == Some(r3[i].value.vals[p])
  {
    WriteRecordsValue(f, r3, |r3|, i, p);
    NextIsPlain();
  }

  /** The pushed or updated record after `delete r.del`, at the records level. */
  lemma AddRecordTarget(r: Records, host: string, value: string)
    requires RecordsOk(r) && Upsert(r, host, value).Some?
    ensures var r3 := ClearDel(Upsert(r, host, value).value);
      var j := TargetIndex(r, host);
      && RecordsOk(r3)
      && Writes(r3, |r3|, j, "host") && r3[j].value.vals["host"] == host
      && Writes(r3, |r3|, j, "txt") && r3[j].value.vals["txt"] == value
      && (j == |r| ==> Writes(r3, |r3|, j, "ttl") && r3[j].value.vals["ttl"] == "")
  {
    var r2 := Upsert(r, host, value).value;
    var j := TargetIndex(r, host);
    assert RecordsOk(ClearDel(r2)) by {
      UpsertOk(r, host, value);
      ClearDelOk(r2);
    }
    UpsertTarget(r, host, value);
    DistinctProps();
    assert ClearDel(r2)[j] == Some(r2[j].value.Remove("del"));
  }

  /** The update-or-push keeps the records valid. */
  lemma UpsertOk(r: Records, host: string, value: string)
    requires RecordsOk(r) && Upsert(r, host, value).Some?
    ensures RecordsOk(Upsert(r, host, value).value)
  {
    if Find(r, host).Found? {
      UpsertFound(r, host, value);
    } else {
      UpsertPushed(r, host, value);
    }
  }

  /** The record the update-or-push leaves at the target index. */
  lemma UpsertTarget(r: Records, host: string, value: string)
    requires Upsert(r, host, value).Some?
    ensures var r2 := Upsert(r, host, value).value;
      var j := TargetIndex(r, host);
      && j < |r2| && r2[j].Some?
      && r2[j].value.Get("host") == Some(host) && r2[j].value.Get("txt") == Some(value)
      && (j == |r| ==> r2[j].value.Get("ttl") == Some(""))
  {
    DistinctProps();
    if Find(r, host).Absent? {
      assert NewRecord(host, value).vals == map["host" := host, "txt" := value, "ttl" := ""];
    }
  }

  /**
    The target of `addTxtRecord`: `TXT::j::host` is the host and `TXT::j::txt`
    the value, where `j` is the first record of the form carrying the host;
    when none does, `j` lies past every record of the form and the pushed
    record also gets an empty `TXT::j::ttl`. `next` is emptied.
  */
  lemma AddTargetOn(f: Form, r: Records, host: string, value: string)
    requires Extracted(f, r) && Upsert(r, host, value).Some?
    ensures var g := Rewrite(f, ClearDel(Upsert(r, host, value).value));
      var j := TargetIndex(r, host);
      && g.Get("next") == Some("")
      && HostedAt(g, j, host)
      && g.Get(TxtKey(j, "txt")) == Some(value)
      && (forall i: nat :: i < j ==> !HostedAt(f, i, host))
      && (HostedAt(f, j, host) || (
            && g.Get(TxtKey(j, "ttl")) == Some("")
            && (forall i: nat :: !HostedAt(f, i, host))
            && (forall i: nat, p :: TxtKey(i, p) in f.vals && NoSep(p) ==> i < j)))
  {
    var r3 := ClearDel(Upsert(r, host, value).value);
    var j := TargetIndex(r, host);
    AddRecordTarget(r, host, value);
    TargetFacts(f, r, host);
    RewriteWrites(f, r3, j, "host");
    RewriteWrites(f, r3, j, "txt");
    if j == |r| {
      RewriteWrites(f, r3, j, "ttl");
    }
  }

  /** The rewrite adds a field only for `next` or for a property the array prints. */
  lemma RewriteNew(f: Form, r3: Records)
    requires RecordsOk(r3)
    ensures var g := Rewrite(f, r3);
      && (forall s :: s in g.vals && !HasTxtPrefix(s) ==> s in f.vals || s == "next")
      && (forall i: nat, p :: TxtKey(i, p) in g.vals && NoSep(p) ==> TxtKey(i, p) in f.vals || Writes(r3, |r3|, i, p))
  {
    WriteRecordsFrame(f, r3, |r3|);
    NextIsPlain();
  }

  /** Only the target record can print a property the array did not have. */
  lemma AddRecordNew(r: Records, host: string, value: string)
    requires RecordsOk(r) && Upsert(r, host, value).Some?
    ensures var r3 := ClearDel(Upsert(r, host, value).value);
      var j := TargetIndex(r, host);
      forall i: nat, p :: Writes(r3, |r3|, i, p) ==>
        Writes(r, |r|, i, p) || (i == j && (p == "txt" || (j == |r| && (p == "host" || p == "ttl"))))
  {
    var r3 := ClearDel(Upsert(r, host, value).value);
    forall i: nat, p | Writes(r3, |r3|, i, p)
      ensures Writes(r, |r|, i, p) || (i == TargetIndex(r, host) && (p == "txt" || (i == |r| && (p == "host" || p == "ttl"))))
    {
      AddRecordNewAt(r, host, value, i, p);
    }
  }

  /** `AddRecordNew` for one property of one record. */
  lemma AddRecordNewAt(r: Records, host: string, value: string, i: nat, p: string)
    requires Upsert(r, host, value).Some?
    requires var r3 := ClearDel(Upsert(r, host, value).value); Writes(r3, |r3|, i, p)
    ensures var j := TargetIndex(r, host);
      Writes(r, |r|, i, p) || (i == j && (p == "txt" || (j == |r| && (p == "host" || p == "ttl"))))
  {
    var r2 := Upsert(r, host, value).value;
    assert p in r2[i].value.vals;
    UpsertProps(r, host, value, i, p);
  }

  /** Where a property of the updated array comes from. */
  lemma UpsertProps(r: Records, host: string, value: string, i: nat, p: string)
    requires Upsert(r, host, value).Some?
    requires var r2 := Upsert(r, host, value).value; i < |r2| && r2[i].Some? && p in r2[i].value.vals
    ensures var j := TargetIndex(r, host);
      Writes(r, |r|, i, p) || (i == j && (p == "txt" || (j == |r| && (p == "host" || p == "ttl"))))
  {
    if Find(r, host).Absent? && i == |r| {
      assert NewRecord(host, value).vals == map["host" := host, "txt" := value, "ttl" := ""];
    }
  }

  /**
    `addTxtRecord` adds no field except `next`, the target's `txt` and, for a
    pushed record, its `host` and `ttl`.
  */
  lemma AddNewKeysOn(f: Form, r: Records, host: string, value: string)
    requires Extracted(f, r) && Upsert(r, host, value).Some?
    ensures var g := Rewrite(f, ClearDel(Upsert(r, host, value).value));
      var j := TargetIndex(r, host);
      && (forall s :: s in g.vals && !HasTxtPrefix(s) ==> s in f.vals || s == "next")
      && (forall i: nat, p :: TxtKey(i, p) in g.vals && NoSep(p) && TxtKey(i, p) !in f.vals ==>
            i == j && (p == "txt" || (!HostedAt(f, j, host) && (p == "host" || p == "ttl"))))
  {
    UpsertShape(r, host, value);
    TargetFacts(f, r, host);
    ClearDelOk(Upsert(r, host, value).value);
    AddRecordNew(r, host, value);
    RewriteNew(f, ClearDel(Upsert(r, host, value).value));
  }

  // ------------------------------------------------------------ idempotence

  /** Writing back the values the form already holds changes nothing. */
  lemma {:induction false} WritePropsNoop(h: Form, i: nat, rec: Rec, m: nat)
    requires m <= |rec.keys|
    requires forall k :: k in rec.vals ==> TxtKey(i, k) in h.vals && h.vals[TxtKey(i, k)] == rec.vals[k]
    ensures WriteProps(h, i, rec, m) == h
  {
    if m > 0 {
      WritePropsNoop(h, i, rec, m - 1);
      var k := rec.keys[m - 1];
      if k in rec.vals {
        PutSame(h, TxtKey(i, k), rec.vals[k]);
      }
    }
  }

  /** `WritePropsNoop` for the write-back of the first `n` records. */
  lemma {:induction false} WriteRecordsNoop(h: Form, r: Records, n: nat)
    requires n <= |r|
    requires forall i: nat, p :: Writes(r, n, i, p) ==> TxtKey(i, p) in h.vals && h.vals[TxtKey(i, p)] == r[i].value.vals[p]
    ensures WriteRecords(h, r, n) == h
  {
    if n > 0 {
      WriteRecordsNoop(h, r, n - 1);
      if r[n - 1].Some? {
        var rec := r[n - 1].value;
        forall k | k in rec.vals
          ensures TxtKey(n - 1, k) in h.vals && h.vals[TxtKey(n - 1, k)] == rec.vals[k]
        {
          assert Writes(r, n, n - 1, k);
        }
        WritePropsNoop(h, n - 1, rec, |rec.keys|);
      }
    }
  }

  /** The scan stops at `j` when every record before it is present and lacks the host. */
  lemma FindFound(r: Records, host: string, j: nat)
    requires j < |r| && r[j].Some? && HostIs(r[j].value, host)
    requires forall i :: 0 <= i < j ==> r[i].Some? && !HostIs(r[i].value, host)
    ensures Find(r, host) == Found(j)
  {
  }

  /** Apart from the target, `addTxtRecord` changes no record's host. */
  lemma AddHostedOn(f: Form, r: Records, host: string, value: string)
    requires WellFormed(f) && Extracted(f, r) && Upsert(r, host, value).Some?
    ensures var g := Rewrite(f, ClearDel(Upsert(r, host, value).value));
      forall i: nat :: i != TargetIndex(r, host) ==> (HostedAt(g, i, host) <==> HostedAt(f, i, host))
  {
    var r3 := ClearDel(Upsert(r, host, value).value);
    var g := Rewrite(f, r3);
    assert RecordsOk(r3) by {
      AddRecordTarget(r, host, value);
    }
    FixedPropsNoSep();
    forall i: nat | i != TargetIndex(r, host)
      ensures HostedAt(g, i, host) <==> HostedAt(f, i, host)
    {
      AddOtherHost(r, host, value, i);
      if Writes(r3, |r3|, i, "host") {
        RewriteWrites(f, r3, i, "host");
        assert TxtKey(i, "host") in f.vals;
        ExtractedProp(f, r, i, "host");
      } else {
        RewriteUnwritten(f, r3, i, "host");
      }
    }
  }

  /** A record other than the target prints the `host` it had, after `delete r.del`. */
  lemma AddOtherHost(r: Records, host: string, value: string, i: nat)
    requires Upsert(r, host, value).Some? && i != TargetIndex(r, host)
    ensures var r3 := ClearDel(Upsert(r, host, value).value);
      && (Writes(r3, |r3|, i, "host") <==> Writes(r, |r|, i, "host"))
      && (Writes(r, |r|, i, "host") ==> r3[i].value.vals["host"] == r[i].value.vals["host"])
  {
    DistinctProps();
    UpsertAt(r, host, value, i);
  }

  /**
    Every record before the target is present in the rewritten form too, so
    a second scan finds the same target.
  */
  lemma AddFindAgain(f: Form, r: Records, host: string, value: string, rg: Records)
    requires WellFormed(f) && Extracted(f, r) && Upsert(r, host, value).Some?
    requires Extracted(Rewrite(f, ClearDel(Upsert(r, host, value).value)), rg)
    ensures Find(rg, host) == Found(TargetIndex(r, host))
  {
    var g := Rewrite(f, ClearDel(Upsert(r, host, value).value));
    var j := TargetIndex(r, host);
    AddFrameOn(f, r, host, value);
    AddTargetOn(f, r, host, value);
    AddHostedOn(f, r, host, value);
    HostedIff(g, rg, host);
    forall i | 0 <= i < j
      ensures rg[i].Some? && !HostIs(rg[i].value, host)
    {
      var p := r[i].value.keys[0];
      assert p in r[i].value.vals;
      assert TxtKey(i, p) in g.vals;
    }
    FindFound(rg, host, j);
  }

  /** A field `TXT::i::p` of the form is property `p` of record `i` of the array. */
  lemma ExtractedProp(f: Form, r: Records, i: nat, p: string)
    requires Extracted(f, r) && TxtKey(i, p) in f.vals && NoSep(p)
    ensures i < |r| && r[i].Some? && r[i].value.Get(p) == Some(f.vals[TxtKey(i, p)])
  {
  }

  /** Updating the target to the `txt` it already holds leaves the array as it is. */
  lemma UpsertSame(r: Records, host: string, value: string, j: nat)
    requires Find(r, host) == Found(j) && r[j].value.Get("txt") == Some(value)
    ensures Upsert(r, host, value) == Some(r)
  {
    PutSame(r[j].value, "txt", value);
    assert r[j := Some(r[j].value.Put("txt", value))] == r;
  }

  /**
    Writing an extracted array back, without its `del` properties, into a
    form whose `next` is already empty gives the same form.
  */
  lemma RewriteClearDelSame(g: Form, rg: Records)
    requires Extracted(g, rg) && g.Get("next") == Some("")
    ensures Rewrite(g, ClearDel(rg)) == g
  {
    var rc := ClearDel(rg);
    forall i: nat, p | Writes(rc, |rc|, i, p)
      ensures TxtKey(i, p) in g.vals && g.vals[TxtKey(i, p)] == rc[i].value.vals[p]
    {
      assert p in rg[i].value.vals;
    }
    WriteRecordsNoop(g, rc, |rc|);
    PutSame(g, "next", "");
  }

  /** `addTxtRecord` on the form it produced changes nothing. */
  lemma AddIdempotentOn(f: Form, r: Records, host: string, value: string, rg: Records)
    requires WellFormed(f) && Extracted(f, r) && Upsert(r, host, value).Some?
    requires Extracted(Rewrite(f, ClearDel(Upsert(r, host, value).value)), rg)
    ensures var g := Rewrite(f, ClearDel(Upsert(r, host, value).value));
      Upsert(rg, host, value) == Some(rg) && Rewrite(g, ClearDel(rg)) == g
  {
    var g := Rewrite(f, ClearDel(Upsert(r, host, value).value));
    var j := TargetIndex(r, host);
    assert Find(rg, host) == Found(j) by {
      AddFindAgain(f, r, host, value, rg);
    }
    assert g.Get(TxtKey(j, "txt")) == Some(value) && g.Get("next") == Some("") by {
      AddTargetOn(f, r, host, value);
    }
    FixedPropsNoSep();
    ExtractedProp(g, rg, j, "txt");
    UpsertSame(rg, host, value, j);
    RewriteClearDelSame(g, rg);
  }

  /** `addTxtRecord` is idempotent: run again on its own result it changes nothing. */
  lemma AddIdempotent(f: Form, host: string, value: string)
    requires WellFormed(f) && AddForm(f, host, value).Some?
    ensures var g := AddForm(f, host, value).value;
      WellFormed(g) && AddForm(g, host, value) == Some(g)
  {
    var r := RecordsOf(f);
    RecordsOfExtracted(f);
    AddFrameOn(f, r, host, value);
    var g := AddForm(f, host, value).value;
    RecordsOfExtracted(g);
    AddIdempotentOn(f, r, host, value, RecordsOf(g));
  }

  // ------------------------------------------------------ the delete transform

  /**
    `MarkDel` record by record: a record carrying the host gains `del = 1`, any
    other loses `del`, and every other property is kept.
  */
  lemma MarkDelShape(r2: Records, host: string)
    requires RecordsOk(r2)
    ensures var r3 := MarkDel(r2, host);
      && RecordsOk(r3)
      && (forall i :: 0 <= i < |r2| ==> (r3[i].Some? <==> r2[i].Some?))
      && (forall i :: 0 <= i < |r2| && r2[i].Some? && HostIs(r2[i].value, host) ==>
            r3[i].value.vals == r2[i].value.vals["del" := "1"])
      && (forall i :: 0 <= i < |r2| && r2[i].Some? && !HostIs(r2[i].value, host) ==>
            r3[i].value.vals == r2[i].value.vals - {"del"})
  {
    FixedPropsNoSep();
  }

  /** The records of the array after `delTxtRecord`'s marking. */
  function Marked(r: Records, host: string, value: string): Records
    requires Upsert(r, host, value).Some?
  {
    MarkDel(Upsert(r, host, value).value, host)
  }

  /**
    Record `i` after the update-or-push and the marking carries the host when
    it did before or is the target, and exactly such records have `del = 1`.
  */
  lemma DelRecordHostAt(r: Records, host: string, value: string, i: nat)
    requires RecordsOk(r) && Upsert(r, host, value).Some?
    ensures var r3 := Marked(r, host, value);
      var j := TargetIndex(r, host);
      && (Writes(r3, |r3|, i, "host") && r3[i].value.vals["host"] == host <==>
            (i < |r| && r[i].Some? && HostIs(r[i].value, host)) || i == j)
      && (Writes(r3, |r3|, i, "del") <==> Writes(r3, |r3|, i, "host") && r3[i].value.vals["host"] == host)
      && (Writes(r3, |r3|, i, "del") ==> r3[i].value.vals["del"] == "1")
  {
    var r2 := Upsert(r, host, value).value;
    UpsertHostAt(r, host, value, i);
    if i < |r2| && r2[i].Some? {
      MarkDelHostAt(r2, host, i);
    }
  }

  /** After the update-or-push, record `i` carries the host when it did before or is the target. */
  lemma UpsertHostAt(r: Records, host: string, value: string, i: nat)
    requires Upsert(r, host, value).Some?
    ensures var r2 := Upsert(r, host, value).value;
      (i < |r2| && r2[i].Some? && HostIs(r2[i].value, host)) <==>
        (i < |r| && r[i].Some? && HostIs(r[i].value, host)) || i == TargetIndex(r, host)
  {
    UpsertAt(r, host, value, i);
    UpsertTarget(r, host, value);
  }

  /** The marking keeps each record's host and gives `del = 1` to exactly the hosted ones. */
  lemma MarkDelHostAt(r2: Records, host: string, i: nat)
    requires i < |r2| && r2[i].Some?
    ensures var b := MarkDel(r2, host)[i];
      && b.Some?
      && (HostIs(b.value, host) <==> HostIs(r2[i].value, host))
      && ("del" in b.value.vals <==> HostIs(r2[i].value, host))
      && ("del" in b.value.vals ==> b.value.vals["del"] == "1")
  {
    DistinctProps();
  }

  /**
    A property `p` that record `i` prints after the update-or-push and the
    marking keeps its old value unless it is `del` or the target's `txt`; a
    property the record did not have is `del`, the target's `txt`, or the
    `host` or `ttl` of a pushed record.
  */
  lemma DelRecordPropsAt(r: Records, host: string, value: string, i: nat, p: string)
    requires Upsert(r, host, value).Some?
    requires var r3 := Marked(r, host, value); Writes(r3, |r3|, i, p)
    ensures var r3 := Marked(r, host, value);
      var j := TargetIndex(r, host);
      && (Writes(r, |r|, i, p) && p != "del" && (i, p) != (j, "txt") ==> r3[i].value.vals[p] == r[i].value.vals[p])
      && (!Writes(r, |r|, i, p) ==> p == "del" || (i == j && (p == "txt" || (j == |r| && (p == "host" || p == "ttl")))))
  {
    var r2 := Upsert(r, host, value).value;
    MarkDelAt(r2, host, i);
    if p != "del" {
      assert p in r2[i].value.vals;
      UpsertProps(r, host, value, i, p);
      if i < |r| {
        UpsertAt(r, host, value, i);
      }
    }
  }

  /** `Upsert` at one index. */
  lemma UpsertAt(r: Records, host: string, value: string, i: nat)
    requires Upsert(r, host, value).Some?
    ensures var r2 := Upsert(r, host, value).value;
      var j := TargetIndex(r, host);
      && |r2| == (if j < |r| then |r| else |r| + 1)
      && (i < |r| && i != j ==> r2[i] == r[i])
      && (i == j && j < |r| ==> r[j].Some? && r2[j].Some? && r2[j].value.vals == r[j].value.vals["txt" := value])
      && (i == j && j == |r| ==> r2[j] == Some(NewRecord(host, value)))
  {
  }

  /** `MarkDel` at one index. */
  lemma MarkDelAt(r2: Records, host: string, i: nat)
    requires i < |r2| && r2[i].Some?
    ensures var b := MarkDel(r2, host)[i];
      && b.Some?
      && (forall p :: p in b.value.vals && p != "del" ==> p in r2[i].value.vals && b.value.vals[p] == r2[i].value.vals[p])
  {
  }

  /** The marked array agrees with the form wherever it prints an old property. */
  lemma DelKeeps(f: Form, r: Records, host: string, value: string)
    requires Extracted(f, r) && Upsert(r, host, value).Some?
    ensures var r3 := Marked(r, host, value);
      var j := TargetIndex(r, host);
      forall i: nat, p :: Writes(r3, |r3|, i, p) && TxtKey(i, p) in f.vals && NoSep(p) && (i, p) != (j, "txt") && p != "del" ==>
        r3[i].value.vals[p] == f.vals[TxtKey(i, p)]
  {
    var r3 := Marked(r, host, value);
    forall i: nat, p | Writes(r3, |r3|, i, p) && TxtKey(i, p) in f.vals && NoSep(p) &&
        (i, p) != (TargetIndex(r, host), "txt") && p != "del"
      ensures r3[i].value.vals[p] == f.vals[TxtKey(i, p)]
    {
      DelRecordPropsAt(r, host, value, i, p);
      ExtractedProp(f, r, i, p);
    }
  }

  /**
    `delTxtRecord` at index `i`: the form has a record for the host at `i`
    afterwards exactly when it had one before or `i` is the target, and every
    such record has `TXT::i::del = 1`.
  */
  lemma DelHostAt(f: Form, r: Records, host: string, value: string, i: nat)
    requires Extracted(f, r) && Upsert(r, host, value).Some?
    ensures var g := Rewrite(f, Marked(r, host, value));
      && (HostedAt(g, i, host) <==> HostedAt(f, i, host) || i == TargetIndex(r, host))
      && (HostedAt(g, i, host) ==> g.Get(TxtKey(i, "del")) == Some("1"))
  {
    var r3 := Marked(r, host, value);
    var g := Rewrite(f, r3);
    assert RecordsOk(r3) by {
      UpsertShape(r, host, value);
      MarkDelShape(Upsert(r, host, value).value, host);
    }
    DelRecordHostAt(r, host, value, i);
    HostedIffAt(f, r, host, i);
    FixedPropsNoSep();
    if Writes(r3, |r3|, i, "host") {
      RewriteWrites(f, r3, i, "host");
    } else {
      RewriteUnwritten(f, r3, i, "host");
    }
    if Writes(r3, |r3|, i, "del") {
      RewriteWrites(f, r3, i, "del");
    }
  }

  /** The marked array is well formed. */
  lemma MarkedOk(r: Records, host: string, value: string)
    requires RecordsOk(r) && Upsert(r, host, value).Some?
    ensures RecordsOk(Marked(r, host, value))
  {
    UpsertShape(r, host, value);
    MarkDelShape(Upsert(r, host, value).value, host);
  }

  /** A record printing `del` after the marking is one the form then has for the host. */
  lemma DelPrintsHosted(f: Form, r: Records, host: string, value: string, i: nat)
    requires RecordsOk(r) && Upsert(r, host, value).Some?
    requires Writes(Marked(r, host, value), |Marked(r, host, value)|, i, "del")
    ensures HostedAt(Rewrite(f, Marked(r, host, value)), i, host)
  {
    MarkedOk(r, host, value);
    DelRecordHostAt(r, host, value, i);
    RewriteWrites(f, Marked(r, host, value), i, "host");
  }

  /**
    `delTxtRecord` removes no field and keeps the existing fields in order;
    every field keeps its value except `next`, the target's `TXT::j::txt` and
    the `del` field of each record carrying the host. A `TXT::i::del` field of
    a record without the host keeps its old value although the record lost
    its `del` property.
  */
  lemma DelFrameOn(f: Form, r: Records, host: string, value: string)
    requires WellFormed(f) && Extracted(f, r) && Upsert(r, host, value).Some?
    ensures var g := Rewrite(f, Marked(r, host, value));
      var j := TargetIndex(r, host);
      && WellFormed(g)
      && f.keys <= g.keys
      && (forall s :: s in f.vals && !HasTxtPrefix(s) && s != "next" ==> s in g.vals && g.vals[s] == f.vals[s])
      && (forall i: nat, p :: TxtKey(i, p) in f.vals && NoSep(p) && (i, p) != (j, "txt") && !(p == "del" && HostedAt(g, i, host)) ==>
            TxtKey(i, p) in g.vals && g.vals[TxtKey(i, p)] == f.vals[TxtKey(i, p)])
  {
    var r3 := Marked(r, host, value);
    var g := Rewrite(f, r3);
    MarkedOk(r, host, value);
    DelKeeps(f, r, host, value);
    RewriteFacts(f, r3, TargetIndex(r, host), "txt");
    forall i: nat | Writes(r3, |r3|, i, "del")
      ensures HostedAt(g, i, host)
    {
      DelPrintsHosted(f, r, host, value, i);
    }
  }

  /** The target record after the update-or-push and the marking. */
  lemma DelRecordTarget(r: Records, host: string, value: string)
    requires Upsert(r, host, value).Some?
    ensures var r3 := Marked(r, host, value);
      var j := TargetIndex(r, host);
      && Writes(r3, |r3|, j, "txt") && r3[j].value.vals["txt"] == value
      && (j == |r| ==> Writes(r3, |r3|, j, "ttl") && r3[j].value.vals["ttl"] == "")
  {
    var j := TargetIndex(r, host);
    UpsertAt(r, host, value, j);
    MarkDelAt(Upsert(r, host, value).value, host, j);
    DistinctProps();
  }

  /**
    The target of `delTxtRecord`: as for `addTxtRecord`, the first record of
    the form carrying the host, or a pushed one past every record, gets the
    host and the value, and it is marked `del = 1`. `next` is emptied.
  */
  lemma DelTargetOn(f: Form, r: Records, host: string, value: string)
    requires Extracted(f, r) && Upsert(r, host, value).Some?
    ensures var g := Rewrite(f, Marked(r, host, value));
      var j := TargetIndex(r, host);
      && g.Get("next") == Some("")
      && HostedAt(g, j, host)
      && g.Get(TxtKey(j, "txt")) == Some(value)
      && g.Get(TxtKey(j, "del")) == Some("1")
      && (forall i: nat :: i < j ==> !HostedAt(f, i, host))
      && (HostedAt(f, j, host) || (
            && g.Get(TxtKey(j, "ttl")) == Some("")
            && (forall i: nat :: !HostedAt(f, i, host))
            && (forall i: nat, p :: TxtKey(i, p) in f.vals && NoSep(p) ==> i < j)))
  {
    var r3 := Marked(r, host, value);
    var j := TargetIndex(r, host);
    MarkedOk(r, host, value);
    DelHostAt(f, r, host, value, j);
    DelRecordTarget(r, host, value);
    TargetFacts(f, r, host);
    RewriteWrites(f, r3, j, "txt");
    if j == |r| {
      RewriteWrites(f, r3, j, "ttl");
    }
    NextIsPlain();
  }

  /**
    `delTxtRecord` adds no field except `next`, `del` fields of records that
    carry the host, the target's `txt` and, for a pushed record, its `host`
    and `ttl`.
  */
  lemma DelNewKeysOn(f: Form, r: Records, host: string, value: string)
    requires Extracted(f, r) && Upsert(r, host, value).Some?
    ensures var g := Rewrite(f, Marked(r, host, value));
      var j := TargetIndex(r, host);
      && (forall s :: s in g.vals && !HasTxtPrefix(s) ==> s in f.vals || s == "next")
      && (forall i: nat, p :: TxtKey(i, p) in g.vals && NoSep(p) && TxtKey(i, p) !in f.vals ==>
            (p == "del" && HostedAt(g, i, host)) ||
            (i == j && (p == "txt" || (!HostedAt(f, j, host) && (p == "host" || p == "ttl")))))
  {
    var r3 := Marked(r, host, value);
    var g := Rewrite(f, r3);
    var j := TargetIndex(r, host);
    MarkedOk(r, host, value);
    RewriteNew(f, r3);
    forall i: nat, p | TxtKey(i, p) in g.vals && NoSep(p) && TxtKey(i, p) !in f.vals
      ensures (p == "del" && HostedAt(g, i, host)) ||
              (i == j && (p == "txt" || (!HostedAt(f, j, host) && (p == "host" || p == "ttl"))))
    {
      DelRecordPropsAt(r, host, value, i, p);
      HostedIffAt(f, r, host, j);
      if p == "del" {
        DelPrintsHosted(f, r, host, value, i);
      }
    }
  }

  // ------------------------------------------------- the transforms on a form

  /**
    `addTxtRecord` on the form: `TXT::j::host` is the host and `TXT::j::txt`
    the value, where `j` is the first record carrying the host; when the form
    has none, the record is pushed past every index the form uses, with an
    empty `TXT::j::ttl`. `next` is emptied.
  */
  lemma AddFormTarget(f: Form, host: string, value: string)
    requires WellFormed(f) && AddForm(f, host, value).Some?
    ensures var g := AddForm(f, host, value).value;
      var j := TargetIndex(RecordsOf(f), host);
      && g.Get("next") == Some("")
      && HostedAt(g, j, host)
      && g.Get(TxtKey(j, "txt")) == Some(value)
      && (forall i: nat :: i < j ==> !HostedAt(f, i, host))
      && (HostedAt(f, j, host) || (
            && g.Get(TxtKey(j, "ttl")) == Some("")
            && (forall i: nat :: !HostedAt(f, i, host))
            && (forall i: nat, p :: TxtKey(i, p) in f.vals && NoSep(p) ==> i < j)))
  {
    RecordsOfExtracted(f);
    AddTargetOn(f, RecordsOf(f), host, value);
  }

  /** `addTxtRecord` on the form adds only `next` and fields of the target record. */
  lemma AddFormNewKeys(f: Form, host: string, value: string)
    requires WellFormed(f) && AddForm(f, host, value).Some?
    ensures var g := AddForm(f, host, value).value;
      var j := TargetIndex(RecordsOf(f), host);
      && (forall s :: s in g.vals && !HasTxtPrefix(s) ==> s in f.vals || s == "next")
      && (forall i: nat, p :: TxtKey(i, p) in g.vals && NoSep(p) && TxtKey(i, p) !in f.vals ==>
            i == j && (p == "txt" || (!HostedAt(f, j, host) && (p == "host" || p == "ttl"))))
  {
    RecordsOfExtracted(f);
    AddNewKeysOn(f, RecordsOf(f), host, value);
  }

  /** `delTxtRecord` on the form: see `DelFrameOn`. */
  lemma DelFormFrame(f: Form, host: string, value: string)
    requires WellFormed(f) && DelForm(f, host, value).Some?
    ensures var g := DelForm(f, host, value).value;
      var j := TargetIndex(RecordsOf(f), host);
      && WellFormed(g)
      && f.keys <= g.keys
      && (forall s :: s in f.vals && !HasTxtPrefix(s) && s != "next" ==> s in g.vals && g.vals[s] == f.vals[s])
      && (forall i: nat, p :: TxtKey(i, p) in f.vals && NoSep(p) && (i, p) != (j, "txt") && !(p == "del" && HostedAt(g, i, host)) ==>
            TxtKey(i, p) in g.vals && g.vals[TxtKey(i, p)] == f.vals[TxtKey(i, p)])
  {
    RecordsOfExtracted(f);
    DelFrameOn(f, RecordsOf(f), host, value);
  }

  /**
    `delTxtRecord` on the form: the records carrying the host afterwards are
    those that did before plus the target, and each is marked `del = 1`.
  */
  lemma DelFormHosts(f: Form, host: string, value: string)
    requires WellFormed(f) && DelForm(f, host, value).Some?
    ensures var g := DelForm(f, host, value).value;
      var j := TargetIndex(RecordsOf(f), host);
      forall i: nat :: (HostedAt(g, i, host) <==> HostedAt(f, i, host) || i == j) &&
        (HostedAt(g, i, host) ==> g.Get(TxtKey(i, "del")) == Some("1"))
  {
    RecordsOfExtracted(f);
    forall i: nat
      ensures var g := DelForm(f, host, value).value;
        (HostedAt(g, i, host) <==> HostedAt(f, i, host) || i == TargetIndex(RecordsOf(f), host)) &&
        (HostedAt(g, i, host) ==> g.Get(TxtKey(i, "del")) == Some("1"))
    {
      DelHostAt(f, RecordsOf(f), host, value, i);
    }
  }

  /** `delTxtRecord` on the form: see `DelTargetOn`. */
  lemma DelFormTarget(f: Form, host: string, value: string)
    requires WellFormed(f) && DelForm(f, host, value).Some?
    ensures var g := DelForm(f, host, value).value;
      var j := TargetIndex(RecordsOf(f), host);
      && g.Get("next") == Some("")
      && HostedAt(g, j, host)
      && g.Get(TxtKey(j, "txt")) == Some(value)
      && g.Get(TxtKey(j, "del")) == Some("1")
      && (forall i: nat :: i < j ==> !HostedAt(f, i, host))
      && (HostedAt(f, j, host) || (
            && g.Get(TxtKey(j, "ttl")) == Some("")
            && (forall i: nat :: !HostedAt(f, i, host))
            && (forall i: nat, p :: TxtKey(i, p) in f.vals && NoSep(p) ==> i < j)))
  {
    RecordsOfExtracted(f);
    DelTargetOn(f, RecordsOf(f), host, value);
  }

  /** `delTxtRecord` on the form: see `DelNewKeysOn`. */
  lemma DelFormNewKeys(f: Form, host: string, value: string)
    requires WellFormed(f) && DelForm(f, host, value).Some?
    ensures var g := DelForm(f, host, value).value;
      var j := TargetIndex(RecordsOf(f), host);
      && (forall s :: s in g.vals && !HasTxtPrefix(s) ==> s in f.vals || s == "next")
      && (forall i: nat, p :: TxtKey(i, p) in g.vals && NoSep(p) && TxtKey(i, p) !in f.vals ==>
            (p == "del" && HostedAt(g, i, host)) ||
            (i == j && (p == "txt" || (!HostedAt(f, j, host) && (p == "host" || p == "ttl")))))
  {
    RecordsOfExtracted(f);
    DelNewKeysOn(f, RecordsOf(f), host, value);
  }

  /**
    Record indices of the form leave no gap: below any index the form uses,
    every index has some field.
  */
  ghost predicate Contiguous(f: Form) {
    forall i: nat, q :: TxtKey(i, q) in f.vals && NoSep(q) ==> forall k: nat :: k < i ==> Used(f, k)
  }

  /** The form has some field of record `k`. */
  ghost predicate Used(f: Form, k: nat) {
    exists p :: TxtKey(k, p) in f.vals && NoSep(p)
  }

  /** With contiguous indices the array has no hole, so neither transform throws. */
  lemma ContiguousNeverThrows(f: Form, host: string, value: string)
    requires WellFormed(f) && Contiguous(f)
    ensures AddForm(f, host, value).Some? && DelForm(f, host, value).Some?
  {
    RecordsOfExtracted(f);
    ContiguousNoHoles(f, RecordsOf(f));
  }

  /** An array extracted from a form with contiguous indices has no hole. */
  lemma ContiguousNoHoles(f: Form, r: Records)
    requires Extracted(f, r) && Contiguous(f)
    ensures forall k :: 0 <= k < |r| ==> r[k].Some?
  {
    forall k | 0 <= k < |r| - 1
      ensures r[k].Some?
    {
      var last := r[|r| - 1].value;
      var q := last.keys[0];
      assert q in last.vals;
      assert Used(f, k);
      var p :| TxtKey(k, p) in f.vals && NoSep(p);
    }
  }

  // ------------------------------------------------- round trips of the form

  /** Two arrays extracted from the same form agree: same length, same holes, same records. */
  lemma ExtractedAgree(g: Form, a: Records, b: Records)
    requires Extracted(g, a) && Extracted(g, b)
    ensures |a| == |b|
    ensures forall i :: 0 <= i < |a| ==>
      (a[i].Some? <==> b[i].Some?) && (a[i].Some? ==> a[i].value.vals == b[i].value.vals)
  {
    ExtractedNoLonger(g, a, b);
    ExtractedNoLonger(g, b, a);
    forall i | 0 <= i < |a|
      ensures (a[i].Some? <==> b[i].Some?) && (a[i].Some? ==> a[i].value.vals == b[i].value.vals)
    {
      if a[i].Some? {
        ExtractedAgreeAt(g, a, b, i);
        ExtractedAgreeAt(g, b, a, i);
        assert a[i].value.vals.Keys == b[i].value.vals.Keys;
      } else if i < |b| && b[i].Some? {
        ExtractedAgreeAt(g, b, a, i);
      }
    }
  }

  lemma ExtractedNoLonger(g: Form, a: Records, b: Records)
    requires Extracted(g, a) && Extracted(g, b)
    ensures |a| <= |b|
  {
    if |a| > 0 {
      var p := a[|a| - 1].value.keys[0];
      assert p in a[|a| - 1].value.vals;
    }
  }

  /** Record `i` of `a` is in `b` too, with the same properties. */
  lemma ExtractedAgreeAt(g: Form, a: Records, b: Records, i: nat)
    requires Extracted(g, a) && Extracted(g, b) && i < |a| && a[i].Some?
    ensures i < |b| && b[i].Some? && a[i].value.vals.Keys <= b[i].value.vals.Keys
    ensures forall p :: p in a[i].value.vals ==> b[i].value.vals[p] == a[i].value.vals[p]
  {
    var p0 := a[i].value.keys[0];
    assert p0 in a[i].value.vals;
    assert TxtKey(i, p0) in g.vals;
  }

  /**
    Writing records into a form that has no `TXT::` field and extracting them
    again gives the same records, holes in the same places. `WriteBack` cannot
    carry a trailing hole or a record with no property (neither prints a
    field), so the array ends in a record and every record has a property.
  */
  lemma WriteBackExtract(f0: Form, r: Records)
    requires WellFormed(f0) && (forall s :: s in f0.vals ==> !HasTxtPrefix(s))
    requires RecordsOk(r) && (|r| > 0 ==> r[|r| - 1].Some?)
    requires forall i :: 0 <= i < |r| && r[i].Some? ==> |r[i].value.keys| > 0
    ensures var g := WriteBack(f0, r);
      && WellFormed(g)
      && |RecordsOf(g)| == |r|
      && (forall i :: 0 <= i < |r| ==>
            (RecordsOf(g)[i].Some? <==> r[i].Some?) &&
            (r[i].Some? ==> RecordsOf(g)[i].value.vals == r[i].value.vals))
  {
    var g := WriteBack(f0, r);
    WriteBackFacts(f0, r);
    forall i: nat, p | TxtKey(i, p) in g.vals && NoSep(p)
      ensures i < |r| && r[i].Some? && p in r[i].value.vals && r[i].value.vals[p] == g.vals[TxtKey(i, p)]
    {
      assert TxtKey(i, p) !in f0.vals;
    }
    assert Extracted(g, r);
    RecordsOfExtracted(g);
    ExtractedAgree(g, RecordsOf(g), r);
  }

  /**
    `addTxtRecord` then `delTxtRecord` for the same host: the delete does not
    throw and finds the record the add wrote, which now holds the delete's
    value and `del = 1`.
  */
  lemma AddThenDel(f: Form, host: string, v: string, w: string)
    requires WellFormed(f) && AddForm(f, host, v).Some?
    ensures var g := AddForm(f, host, v).value;
      && WellFormed(g)
      && DelForm(g, host, w).Some?
      && var h := DelForm(g, host, w).value;
         var j := TargetIndex(RecordsOf(f), host);
         && HostedAt(h, j, host)
         && h.Get(TxtKey(j, "txt")) == Some(w)
         && h.Get(TxtKey(j, "del")) == Some("1")
  {
    var r := RecordsOf(f);
    RecordsOfExtracted(f);
    AddFrameOn(f, r, host, v);
    var g := AddForm(f, host, v).value;
    RecordsOfExtracted(g);
    AddFindAgain(f, r, host, v, RecordsOf(g));
    DelFormTarget(g, host, w);
  }
}
