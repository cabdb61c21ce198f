/**
  The record code as it runs: the provider form is one mutable object that
  `addTxtRecord` and `delTxtRecord` write into field by field, and each
  operation is a loop proved equal to its specification in `TxtRecords`.
*/
module TxtEditor {
  import opened Options
  import opened OrderedMaps
  import opened FieldKeys
  import opened TxtRecords

  /** The form object: its field names in insertion order and their values. */
  class FormObject {
    var names: seq<string>
    var values: map<string, string>

    /** The form's current contents as an ordered map. */
    function Fields(): Form
      reads this
    {
      OrderedMap(names, values)
    }

    ghost predicate Valid()
      reads this
    {
      Fields().Valid()
    }

    constructor (init: Form)
      requires init.Valid()
      ensures Fields() == init
      ensures Valid()
    {
      names := init.keys;
      values := init.vals;
    }

    /** `form[k] = v`: a new field goes last, an existing one keeps its place. */
    method Set(k: string, v: string)
      modifies this
      ensures Fields() == old(Fields()).Put(k, v)
      ensures old(Valid()) ==> Valid()
    {
      if k !in values {
        names := names + [k];
      }
      values := values[k := v];
    }
  }

  /**
    `recordsFromForm`: visit the form's fields in order and, for each field
    `TXT::i::p`, set `records[i][p]`, creating `records[i]` when missing.
  */
  method RecordsFromForm(form: FormObject) returns (records: Records)
    requires form.Valid()
    ensures records == RecordsOf(form.Fields())
  {
    records := [];
    var n := 0;
    while n < |form.names|
      invariant n <= |form.names|
      invariant records == Collect(form.Fields(), n)
    {
      var k := form.names[n];
      assert k in form.values;
      records := VisitField(records, k, form.values[k]);
      n := n + 1;
    }
  }

  /** The `forEach` callback of `recordsFromForm` for one field `k` with value `v`. */
  method VisitField(records: Records, k: string, v: string) returns (r: Records)
    ensures r == Place(records, k, v)
  {
    r := records;
    match ParseKey(k) {
      case Some(Txt(i, p)) =>
        // assigning past the end grows the array with holes
        if i >= |r| {
          r := r + Holes(i + 1 - |r|);
        }
        if r[i].None? {
          r := r[i := Some(Empty())];
        }
        r := r[i := Some(r[i].value.Put(p, v))];
      case _ =>
    }
  }

  /**
    `records.find(r => r.host === host)`: the first record carrying the host,
    or the first hole, where reading `r.host` throws.
  */
  method FindRecord(records: Records, host: string) returns (l: Lookup)
    ensures l == Find(records, host)
  {
    var i := 0;
    while i < |records|
      invariant i <= |records|
      invariant FindFrom(records, host, i) == Find(records, host)
    {
      if records[i].None? {
        return HitHole(i);
      }
      if records[i].value.Get("host") == Some(host) {
        return Found(i);
      }
      i := i + 1;
    }
    return Absent;
  }

  /**
    The shared first half of both transforms: update the found record's `txt`
    or push `{host, txt: value, ttl: ''}`; `None` when the scan throws.
  */
  method UpsertRecord(records: Records, host: string, value: string) returns (r: Option<Records>)
    ensures r == Upsert(records, host, value)
  {
    var found := FindRecord(records, host);
    match found {
      case HitHole(_) =>
        r := None;
      case Found(j) =>
        r := Some(records[j := Some(records[j].value.Put("txt", value))]);
      case Absent =>
        r := Some(records + [Some(NewRecord(host, value))]);
    }
  }

  /** `Object.keys(r).forEach(k => form[`TXT::${i}::${k}`] = r[k])`. */
  method WriteRecord(form: FormObject, i: nat, rec: Rec)
    requires form.Valid()
    modifies form
    ensures form.Fields() == WriteProps(old(form.Fields()), i, rec, |rec.keys|)
    ensures form.Valid()
  {
    var m := 0;
    while m < |rec.keys|
      invariant m <= |rec.keys|
      invariant form.Valid()
      invariant form.Fields() == WriteProps(old(form.Fields()), i, rec, m)
    {
      var k := rec.keys[m];
      if k in rec.vals {
        form.Set(TxtKey(i, k), rec.vals[k]);
      }
      m := m + 1;
    }
  }

  /**
    `records.forEach` of `addTxtRecord`: every record loses `del`, then its
    properties are written back into `TXT::i::k`.
  */
  method WriteBackCleared(form: FormObject, r2: Records)
    requires form.Valid()
    modifies form
    ensures form.Fields() == WriteRecords(old(form.Fields()), ClearDel(r2), |r2|)
    ensures form.Valid()
  {
    ghost var f0 := form.Fields();
    var i := 0;
    while i < |r2|
      invariant i <= |r2|
      invariant form.Valid()
      invariant form.Fields() == WriteRecords(f0, ClearDel(r2), i)
    {
      if r2[i].Some? {
        var rec := r2[i].value.Remove("del");
        WriteRecord(form, i, rec);
      }
      i := i + 1;
    }
  }

  /**
    `records.forEach` of `delTxtRecord`: a record carrying the host gets
    `del = 1`, any other loses `del`, then its properties are written back.
  */
  method WriteBackMarked(form: FormObject, r2: Records, host: string)
    requires form.Valid()
    modifies form
    ensures form.Fields() == WriteRecords(old(form.Fields()), MarkDel(r2, host), |r2|)
    ensures form.Valid()
  {
    ghost var f0 := form.Fields();
    var i := 0;
    while i < |r2|
      invariant i <= |r2|
      invariant form.Valid()
      invariant form.Fields() == WriteRecords(f0, MarkDel(r2, host), i)
    {
      if r2[i].Some? {
        var rec := r2[i].value;
        if rec.Get("host") == Some(host) {
          rec := rec.Put("del", "1");
        } else {
          rec := rec.Remove("del");
        }
        WriteRecord(form, i, rec);
      }
      i := i + 1;
    }
  }

  /**
    `addTxtRecord(form)`: returns false, with the form untouched, when the
    scan throws on a hole; otherwise the form becomes `AddForm` of the old one.
  */
  method AddTxtRecord(form: FormObject, host: string, value: string) returns (ok: bool)
    requires form.Valid()
    modifies form
    ensures ok == AddForm(old(form.Fields()), host, value).Some?
    ensures ok ==> form.Fields() == AddForm(old(form.Fields()), host, value).value
    ensures !ok ==> form.Fields() == old(form.Fields())
    ensures form.Valid()
  {
    var records := RecordsFromForm(form);
    var updated := UpsertRecord(records, host, value);
    if updated.None? {
      return false;
    }
    WriteBackCleared(form, updated.value);
    form.Set("next", "");
    ok := true;
  }

  /**
    `delTxtRecord(form)`: as `AddTxtRecord`, but records carrying the host get
    `del = 1` and the others lose `del` before the write-back.
  */
  method DelTxtRecord(form: FormObject, host: string, value: string) returns (ok: bool)
    requires form.Valid()
    modifies form
    ensures ok == DelForm(old(form.Fields()), host, value).Some?
    ensures ok ==> form.Fields() == DelForm(old(form.Fields()), host, value).value
    ensures !ok ==> form.Fields() == old(form.Fields())
    ensures form.Valid()
  {
    var records := RecordsFromForm(form);
    var updated := UpsertRecord(records, host, value);
    if updated.None? {
      return false;
    }
    WriteBackMarked(form, updated.value, host);
    form.Set("next", "");
    ok := true;
  }
}
