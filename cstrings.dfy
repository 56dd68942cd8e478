/// The C string routines the store relies on: what trim keeps, strtok with
/// a "," delimiter, atoi and printf's "%d".
module CStrings {
  import opened CType

  // ---------------------------------------------------------------------
  // trim
  // ---------------------------------------------------------------------

  /// The string without its trailing white space.
  function TrimRight(s: string): (r: string)
    ensures |r| <= |s|
    ensures r == [] || !IsSpace(r[|r| - 1])
    decreases |s|
  {
    if s != [] && IsSpace(s[|s| - 1]) then TrimRight(s[..|s| - 1]) else s
  }

  /// The string without its leading white space.
  function TrimLeft(s: string): (r: string)
    ensures |r| <= |s|
    ensures r == [] || !IsSpace(r[0])
    decreases |s|
  {
    if s != [] && IsSpace(s[0]) then TrimLeft(s[1..]) else s
  }

  /// What trim leaves of a line.
  function Trimmed(s: string): (r: string)
    ensures |r| <= |s|
    ensures r == [] || !IsSpace(r[0])
    ensures s == [] || (!IsSpace(s[0]) && !IsSpace(s[|s| - 1])) ==> r == s
  {
    TrimLeft(TrimRight(s))
  }

  /// TrimRight keeps a prefix and removes only white space.
  lemma {:induction false} TrimRightFacts(s: string)
    ensures forall k :: 0 <= k < |TrimRight(s)| ==> TrimRight(s)[k] == s[k]
    ensures forall k :: |TrimRight(s)| <= k < |s| ==> IsSpace(s[k])
    decreases |s|
  {
    if s != [] && IsSpace(s[|s| - 1]) {
      TrimRightFacts(s[..|s| - 1]);
    }
  }

  /// TrimLeft keeps a suffix and removes only white space.
  lemma {:induction false} TrimLeftFacts(s: string)
    ensures forall k :: 0 <= k < |TrimLeft(s)| ==> TrimLeft(s)[k] == s[|s| - |TrimLeft(s)| + k]
    ensures forall k :: 0 <= k < |s| - |TrimLeft(s)| ==> IsSpace(s[k])
    decreases |s|
  {
    if s != [] && IsSpace(s[0]) {
      TrimLeftFacts(s[1..]);
    }
  }

  /// trim removes white space at both ends and nowhere else: what it keeps
  /// is a slice of the line, everything around that slice is white space,
  /// and the slice neither begins nor ends with white space.
  lemma TrimmedFacts(s: string) returns (a: nat)
    ensures Trimmed(s) == [] || !IsSpace(Trimmed(s)[|Trimmed(s)| - 1])
    ensures a + |Trimmed(s)| <= |s| && Trimmed(s) == s[a..a + |Trimmed(s)|]
    ensures forall k :: 0 <= k < a ==> IsSpace(s[k])
    ensures forall k :: a + |Trimmed(s)| <= k < |s| ==> IsSpace(s[k])
  {
    var x := TrimRight(s);
    var r := TrimLeft(x);
    TrimRightFacts(s);
    TrimLeftFacts(x);
    a := |x| - |r|;
    assert r == s[a..a + |r|];
    if r != [] {
      assert r[|r| - 1] == x[|x| - 1];
    }
  }

  /// Trimming a second time changes nothing.
  lemma TrimmedTwice(s: string)
    ensures Trimmed(Trimmed(s)) == Trimmed(s)
  {
    var _ := TrimmedFacts(s);
  }

  /// TrimRight(s) is s[..n] exactly when s[n..] is white space and s[..n]
  /// does not end in white space.
  lemma {:induction false} TrimRightIs(s: string, n: nat)
    requires n <= |s|
    requires forall k :: n <= k < |s| ==> IsSpace(s[k])
    requires n == 0 || !IsSpace(s[n - 1])
    ensures TrimRight(s) == s[..n]
    decreases |s|
  {
    if n < |s| {
      var p := s[..|s| - 1];
      assert forall k :: n <= k < |p| ==> p[k] == s[k];
      TrimRightIs(p, n);
      assert p[..n] == s[..n];
    } else {
      assert s[..n] == s;
    }
  }

  /// TrimLeft(s) is s[start..] exactly when s[..start] is white space and
  /// s[start..] does not begin with it.
  lemma {:induction false} TrimLeftIs(s: string, start: nat)
    requires start <= |s|
    requires forall k :: 0 <= k < start ==> IsSpace(s[k])
    requires start == |s| || !IsSpace(s[start])
    ensures TrimLeft(s) == s[start..]
    decreases start
  {
    if start > 0 {
      var p := s[1..];
      assert forall k :: 0 <= k < start - 1 ==> p[k] == s[k + 1];
      TrimLeftIs(p, start - 1);
      assert p[start - 1..] == s[start..];
    }
  }

  /// Trimmed(s) is s[start..end] when everything outside those bounds is
  /// white space and the kept text neither begins nor ends with it.
  lemma TrimmedIs(s: string, start: nat, end: nat)
    requires start <= end <= |s|
    requires forall k :: end <= k < |s| ==> IsSpace(s[k])
    requires forall k :: 0 <= k < start ==> IsSpace(s[k])
    requires end == 0 || !IsSpace(s[end - 1])
    requires start == end || !IsSpace(s[start])
    ensures Trimmed(s) == s[start..end]
  {
    TrimRightIs(s, end);
    assert s[..end][start..] == s[start..end];
    TrimLeftIs(s[..end], start);
  }

  // ---------------------------------------------------------------------
  // strtok(line, ",") and the comma-separated record format
  // ---------------------------------------------------------------------

  /// A field that survives strtok unchanged: non-empty and comma-free.
  predicate IsField(t: string) {
    t != [] && ',' !in t
  }

  /// Length of the text before the first comma.
  function TokenLength(s: string): (n: nat)
    ensures n <= |s|
    ensures n < |s| ==> s[n] == ','
  {
    if s == [] || s[0] == ',' then 0 else 1 + TokenLength(s[1..])
  }

  /// The tokens successive strtok(…, ",") calls return: maximal comma-free
  /// runs; runs of commas collapse, so no token is empty.
  function Split(s: string): seq<string>
    decreases |s|
  {
    if s == [] then []
    else if s[0] == ',' then Split(s[1..])
    else
      var n := TokenLength(s);
      [s[..n]] + Split(s[n..])
  }

  /// No comma comes before TokenLength(s).
  lemma {:induction false} TokenLengthFacts(s: string)
    ensures forall k :: 0 <= k < TokenLength(s) ==> s[k] != ','
  {
    if s != [] && s[0] != ',' {
      TokenLengthFacts(s[1..]);
    }
  }

  /// Every token strtok returns is a field: non-empty and comma-free.
  lemma {:induction false} SplitFields(s: string)
    ensures forall t :: t in Split(s) ==> IsField(t)
    decreases |s|
  {
    if s != [] && s[0] == ',' {
      SplitFields(s[1..]);
    } else if s != [] {
      var n := TokenLength(s);
      TokenLengthFacts(s);
      SplitFields(s[n..]);
    }
  }

  /// The fields written with commas between them, as the fprintf formats do.
  function Join(fields: seq<string>): string {
    if |fields| == 0 then ""
    else if |fields| == 1 then fields[0]
    else fields[0] + "," + Join(fields[1..])
  }

  lemma {:induction false} JoinEnds(fields: seq<string>)
    requires |fields| > 0 && forall k :: 0 <= k < |fields| ==> fields[k] != []
    ensures |Join(fields)| > 0
    ensures Join(fields)[0] == fields[0][0]
    ensures Join(fields)[|Join(fields)| - 1] == fields[|fields| - 1][|fields[|fields| - 1]| - 1]
  {
    if |fields| > 1 {
      var rest := fields[1..];
      assert forall k :: 0 <= k < |rest| ==> rest[k] == fields[k + 1];
      JoinEnds(rest);
      assert Join(fields) == fields[0] + "," + Join(rest);
      assert rest[|rest| - 1] == fields[|fields| - 1];
    }
  }

  /// The first token of f + "," + rest is f when f holds no comma.
  lemma {:induction false} TokenLengthBeforeComma(f: string, rest: string)
    requires ',' !in f
    ensures TokenLength(f + "," + rest) == |f|
  {
    var s := f + "," + rest;
    if f != [] {
      assert s[0] == f[0] && f[0] in f;
      assert s[1..] == f[1..] + "," + rest;
      assert forall c :: c in f[1..] ==> c in f;
      TokenLengthBeforeComma(f[1..], rest);
    }
  }

  /// Reading back what was written: splitting joined fields gives them back
  /// as long as none of them is empty or holds a comma.
  lemma {:induction false} SplitJoin(fields: seq<string>)
    requires forall t :: t in fields ==> IsField(t)
    ensures Split(Join(fields)) == fields
  {
    if |fields| == 1 {
      var f := fields[0];
      assert f in fields && f[0] in f;
      assert Join(fields) == f;
      assert TokenLength(f) == |f|;
      assert f[..|f|] == f && f[|f|..] == [];
    } else if |fields| > 1 {
      var f := fields[0];
      var rest := Join(fields[1..]);
      var s := f + "," + rest;
      assert f in fields && f[0] in f;
      assert s[0] == f[0];
      TokenLengthBeforeComma(f, rest);
      var n := TokenLength(s);
      assert s[..n] == f;
      assert s[n..][1..] == rest;
      SplitJoin(fields[1..]);
    }
  }

  // ---------------------------------------------------------------------
  // atoi and "%d"
  // ---------------------------------------------------------------------

  function DigitValue(c: char): nat
    requires IsDigit(c)
  {
    c as int - '0' as int
  }

  function DigitChar(d: nat): (c: char)
    requires d < 10
    ensures IsDigit(c) && DigitValue(c) == d
  {
    ('0' as int + d) as char
  }

  /// Number of leading decimal digits.
  function DigitCount(s: string): (n: nat)
    ensures n <= |s|
    ensures forall k :: 0 <= k < n ==> IsDigit(s[k])
    ensures n < |s| ==> !IsDigit(s[n])
  {
    if s == [] || !IsDigit(s[0]) then 0 else 1 + DigitCount(s[1..])
  }

  predicate AllDigits(d: string) {
    forall k :: 0 <= k < |d| ==> IsDigit(d[k])
  }

  /// The value of a string of decimal digits, most significant first.
  function DigitsToNat(d: string): nat
    requires AllDigits(d)
  {
    if d == [] then 0 else 10 * DigitsToNat(d[..|d| - 1]) + DigitValue(d[|d| - 1])
  }

  /// The value of the leading digits of s (0 when there are none).
  function LeadingValue(s: string): nat {
    DigitsToNat(s[..DigitCount(s)])
  }

  /// atoi: leading white space is skipped, one optional sign is read, then
  /// as many digits as follow; text that does not start a number gives 0.
  /// (Overflow, undefined in C, does not arise with unbounded integers.)
  function Atoi(s: string): int {
    var t := TrimLeft(s);
    if t != [] && t[0] == '-' then 0 - LeadingValue(t[1..]) as int
    else if t != [] && t[0] == '+' then LeadingValue(t[1..])
    else LeadingValue(t)
  }

  /// "%u" of a natural number.
  function NatToString(n: nat): (r: string)
    ensures r != [] && AllDigits(r)
    ensures DigitsToNat(r) == n
  {
    if n < 10 then [DigitChar(n)]
    else
      var r := NatToString(n / 10) + [DigitChar(n % 10)];
      assert r[..|r| - 1] == NatToString(n / 10);
      r
  }

  /// "%d" of an integer.
  function IntToString(i: int): (r: string)
    ensures IsField(r)
    ensures !IsSpace(r[0]) && IsDigit(r[|r| - 1])
    ensures i > 0 ==> IsDigit(r[0])
  {
    if i < 0 then "-" + NatToString(-i) else NatToString(i)
  }

  lemma TrimLeftNoSpace(s: string)
    requires s == [] || !IsSpace(s[0])
    ensures TrimLeft(s) == s
  {
  }

  lemma DigitStringValue(d: string)
    requires d != [] && AllDigits(d)
    ensures TrimLeft(d) == d && LeadingValue(d) == DigitsToNat(d)
  {
    TrimLeftNoSpace(d);
    assert DigitCount(d) == |d|;
    assert d[..|d|] == d;
  }

  /// atoi of a string of digits is the number they spell.
  lemma AtoiDigits(w: string)
    requires w != [] && AllDigits(w)
    ensures Atoi(w) == DigitsToNat(w)
  {
    DigitStringValue(w);
    assert IsDigit(w[0]);
  }

  /// atoi of a minus sign followed by digits is the negated number.
  lemma AtoiMinusDigits(w: string)
    requires w != [] && AllDigits(w)
    ensures Atoi("-" + w) == 0 - DigitsToNat(w)
  {
    var t := "-" + w;
    TrimLeftNoSpace(t);
    assert t[1..] == w;
    DigitStringValue(w);
  }

  /// atoi reads back what "%d" wrote.
  lemma AtoiIntToString(i: int)
    ensures Atoi(IntToString(i)) == i
  {
    if i < 0 {
      AtoiMinusDigits(NatToString(-i));
    } else {
      AtoiDigits(NatToString(i));
    }
  }
}
