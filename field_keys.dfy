/**
  Names of provider form fields. A field whose name starts with `TXT::` holds
  one property of one TXT record, `TXT::<index>::<property>`; every other field
  is opaque. `ParseKey` is what the filter `k.match('^TXT::')` followed by
  `k.split('::')` extracts from a name, `KeyString` is the template literal
  `TXT::${i}::${k}` used on write-back; the two are inverse to each other.
*/
module FieldKeys {
  import opened Options

  /** A field name as the record code sees it. */
  datatype Key = Txt(index: nat, prop: string) | Plain(name: string)

  const TxtPrefix: string := "TXT::"

  predicate HasTxtPrefix(s: string) {
    |s| >= |TxtPrefix| && s[..|TxtPrefix|] == TxtPrefix
  }

  predicate IsDigit(c: char) {
    '0' <= c <= '9'
  }

  predicate AllDigits(s: string) {
    forall i :: 0 <= i < |s| ==> IsDigit(s[i])
  }

  function DigitChar(d: nat): (c: char)
    requires d < 10
    ensures IsDigit(c) && c as int - '0' as int == d
  {
    ('0' as int + d) as char
  }

  /** The decimal numeral JavaScript prints for an array index. */
  function Numeral(n: nat): (s: string)
    ensures |s| > 0 && AllDigits(s)
    ensures (|s| > 1 <==> n >= 10)
    ensures n > 0 ==> s[0] != '0'
    ensures forall i :: 0 <= i < |s| ==> s[i] != ':'
  {
    if n < 10 then [DigitChar(n)] else Numeral(n / 10) + [DigitChar(n % 10)]
  }

  /** The value of a string of decimal digits. */
  function DigitsValue(s: string): nat
    requires AllDigits(s)
  {
    if s == [] then 0 else DigitsValue(s[..|s| - 1]) * 10 + (s[|s| - 1] as int - '0' as int)
  }

  /** A canonical numeral: what names an array element (no sign, no leading zero). */
  predicate Canonical(s: string) {
    |s| > 0 && AllDigits(s) && (|s| > 1 ==> s[0] != '0')
  }

  function ParseNumeral(s: string): (r: Option<nat>)
    ensures r.Some? <==> Canonical(s)
  {
    if Canonical(s) then Some(DigitsValue(s)) else None
  }

  lemma {:induction false} NumeralValue(n: nat)
    ensures DigitsValue(Numeral(n)) == n
  {
    if n >= 10 {
      var s := Numeral(n);
      assert s[..|s| - 1] == Numeral(n / 10);
      NumeralValue(n / 10);
    }
  }

  lemma NumeralRoundTrip(n: nat)
    ensures ParseNumeral(Numeral(n)) == Some(n)
  {
    NumeralValue(n);
  }

  /** A canonical numeral with a non-zero first digit has a positive value. */
  lemma {:induction false} LeadingDigitPositive(s: string)
    requires Canonical(s) && s[0] != '0'
    ensures DigitsValue(s) >= 1
  {
    if |s| > 1 {
      LeadingDigitPositive(s[..|s| - 1]);
    }
  }

  /** Every canonical numeral is the one printed for its value. */
  lemma {:induction false} CanonicalIsNumeral(s: string)
    requires Canonical(s)
    ensures Numeral(DigitsValue(s)) == s
  {
    if |s| > 1 {
      var init := s[..|s| - 1];
      assert Canonical(init);
      LeadingDigitPositive(init);
      CanonicalIsNumeral(init);
      var v := DigitsValue(s);
      var d := s[|s| - 1] as int - '0' as int;
      assert v == DigitsValue(init) * 10 + d;
      assert v / 10 == DigitsValue(init) && v % 10 == d;
      assert s == init + [s[|s| - 1]];
    }
  }

  /**
    Position of the first `::` in `s`, or `|s|` when there is none: the
    left-to-right scan `split('::')` performs.
  */
  function FindSep(s: string): (j: nat)
    ensures j <= |s|
    ensures j < |s| ==> j + 1 < |s| && s[j] == ':' && s[j + 1] == ':'
    ensures forall i :: 0 <= i < j && i + 1 < |s| ==> !(s[i] == ':' && s[i + 1] == ':')
  {
    if |s| < 2 then |s|
    else if s[0] == ':' && s[1] == ':' then 0
    else 1 + FindSep(s[1..])
  }

  predicate NoSep(s: string) {
    FindSep(s) == |s|
  }

  lemma NoColonNoSep(s: string)
    requires forall i :: 0 <= i < |s| ==> s[i] != ':'
    ensures NoSep(s)
  {
  }

  /** The first separator after a colon-free prefix is the one that follows it. */
  lemma SepAfterColonFree(a: string, b: string)
    requires forall i :: 0 <= i < |a| ==> a[i] != ':'
    ensures FindSep(a + "::" + b) == |a|
  {
    var s := a + "::" + b;
    var j := FindSep(s);
    assert s[|a|] == ':' && s[|a| + 1] == ':';
    assert forall i :: 0 <= i < |a| ==> s[i] == a[i];
  }

  /** What a key must look like for the name round trip to hold. */
  predicate ValidKey(k: Key) {
    match k
    case Txt(_, p) => NoSep(p)
    case Plain(n) => !HasTxtPrefix(n)
  }

  function KeyString(k: Key): string {
    match k
    case Txt(i, p) => TxtPrefix + Numeral(i) + "::" + p
    case Plain(n) => n
  }

  /**
    Classify a field name. A `TXT::` name is a record field only when it has
    the shape `TXT::<canonical index>::<property>` with no further `::`; any
    other `TXT::` name is outside the model (None).
  */
  function ParseKey(s: string): (r: Option<Key>)
    ensures r.Some? ==> ValidKey(r.value) && KeyString(r.value) == s
    ensures !HasTxtPrefix(s) ==> r == Some(Plain(s))
  {
    if !HasTxtPrefix(s) then Some(Plain(s))
    else
      var rest := s[|TxtPrefix|..];
      var j := FindSep(rest);
      if j == |rest| then None
      else
        match ParseNumeral(rest[..j])
        case None => None
        case Some(i) =>
          var p := rest[j + 2..];
          if NoSep(p) then
            CanonicalIsNumeral(rest[..j]);
            assert s == TxtPrefix + rest[..j] + "::" + p;
            Some(Txt(i, p))
          else None
  }

  /** Printing a valid key and classifying the name gives the key back. */
  lemma KeyRoundTrip(k: Key)
    requires ValidKey(k)
    ensures ParseKey(KeyString(k)) == Some(k)
  {
    if k.Txt? {
      var s := KeyString(k);
      var num := Numeral(k.index);
      assert s[..|TxtPrefix|] == TxtPrefix;
      var rest := s[|TxtPrefix|..];
      assert rest == num + "::" + k.prop;
      SepAfterColonFree(num, k.prop);
      assert rest[..|num|] == num;
      assert rest[|num| + 2..] == k.prop;
      NumeralRoundTrip(k.index);
    }
  }

  /** Two valid keys print to the same name only if they are equal. */
  lemma KeyStringInjective(k1: Key, k2: Key)
    requires ValidKey(k1) && ValidKey(k2) && KeyString(k1) == KeyString(k2)
    ensures k1 == k2
  {
    KeyRoundTrip(k1);
    KeyRoundTrip(k2);
  }

  /** The record-field name `TXT::i::p`. */
  function TxtKey(i: nat, p: string): (s: string)
    ensures HasTxtPrefix(s)
  {
    assert (TxtPrefix + Numeral(i) + "::" + p)[..|TxtPrefix|] == TxtPrefix;
    KeyString(Txt(i, p))
  }
}
