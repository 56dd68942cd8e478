/// The utility helpers of main.c: trim, which works in place on a character
/// buffer, and the three input validators, which are read-only scans.
module Helpers {
  import opened CType
  import opened CStrings

  // ---------------------------------------------------------------------
  // trim (in place)
  // ---------------------------------------------------------------------

  /// memmove(buf, buf + start, end - start): the characters buf[start..end]
  /// move to the front; nothing from end - start on is written.
  method MoveToFront(buf: array<char>, start: nat, end: nat)
    requires start <= end <= buf.Length
    modifies buf
    ensures buf[..end - start] == old(buf[start..end])
    ensures buf[end - start..] == old(buf[end - start..])
  {
    var k := 0;
    while k < end - start
      invariant 0 <= k <= end - start
      invariant buf[..k] == old(buf[start..start + k])
      invariant buf[k..] == old(buf[k..])
    {
      buf[k] := buf[start + k];
      k := k + 1;
    }
  }

  /// The two scans of trim: from the end back over white space, then from
  /// the front over white space. The text between the bounds is what trim
  /// keeps.
  method TrimBounds(buf: array<char>, len: nat) returns (start: nat, end: nat)
    requires len <= buf.Length
    ensures start <= end <= len
    ensures buf[start..end] == Trimmed(buf[..len])
  {
    end := len;
    while end > 0 && IsSpace(buf[end - 1])
      invariant 0 <= end <= len
      invariant forall k :: end <= k < len ==> IsSpace(buf[k])
    {
      end := end - 1;
    }
    start := 0;
    while start < end && IsSpace(buf[start])
      invariant 0 <= start <= end
      invariant forall k :: end <= k < len ==> IsSpace(buf[k])
      invariant forall k :: 0 <= k < start ==> IsSpace(buf[k])
    {
      start := start + 1;
    }
    TrimmedIs(buf[..len], start, end);
  }

  /// trim: the string is buf[..len]. Trailing white space is cut off (the C
  /// code writes terminators over it) and, when there was leading white
  /// space, the rest is moved to the front of the buffer. Nothing past the
  /// original string is touched.
  method Trim(buf: array<char>, len: nat) returns (newLen: nat)
    requires len <= buf.Length
    modifies buf
    ensures newLen <= len
    ensures buf[..newLen] == Trimmed(old(buf[..len]))
    ensures buf[len..] == old(buf[len..])
  {
    var start, end := TrimBounds(buf, len);
    ghost var kept := buf[start..end];
    if start > 0 {
      ghost var before := buf[..];
      MoveToFront(buf, start, end);
      assert buf[..] == buf[..end - start] + buf[end - start..];
      assert buf[..] == kept + before[end - start..];
    }
    newLen := end - start;
    assert buf[..newLen] == kept;
  }

  // ---------------------------------------------------------------------
  // isValidName
  // ---------------------------------------------------------------------

  /// A character isValidName accepts: a letter, white space, '.' or '-'.
  predicate IsNameChar(c: char) {
    IsAlpha(c) || IsSpace(c) || c == '.' || c == '-'
  }

  /// isValidName: scans the name and fails at the first character that is
  /// not a name character; the empty name passes.
  function IsValidName(s: string): (ok: bool)
    ensures ok <==> forall k :: 0 <= k < |s| ==> IsNameChar(s[k])
  {
    if s == [] then true
    else if !IsNameChar(s[0]) then false
    else
      var ok := IsValidName(s[1..]);
      assert forall k :: 1 <= k < |s| ==> s[k] == s[1..][k - 1];
      ok
  }

  // ---------------------------------------------------------------------
  // isValidEmail
  // ---------------------------------------------------------------------

  /// strchr: the index of the first occurrence of c, or |s| when there is
  /// none.
  function FirstIndex(s: string, c: char): (i: nat)
    ensures i <= |s|
    ensures forall k :: 0 <= k < i ==> s[k] != c
    ensures i < |s| ==> s[i] == c
  {
    if s == [] || s[0] == c then 0 else 1 + FirstIndex(s[1..], c)
  }

  /// isValidEmail: there is an '@', and a '.' somewhere after the first one.
  function IsValidEmail(s: string): (ok: bool)
    ensures ok ==> '@' in s && '.' in s
  {
    var at := FirstIndex(s, '@');
    at < |s| && FirstIndex(s[at..], '.') < |s[at..]|
  }

  /// An address passes exactly when some '@' comes before some '.'.
  lemma ValidEmailIff(s: string)
    ensures IsValidEmail(s) <==>
            exists i, j :: 0 <= i < j < |s| && s[i] == '@' && s[j] == '.'
  {
    var at := FirstIndex(s, '@');
    if IsValidEmail(s) {
      var d := FirstIndex(s[at..], '.');
      assert s[at + d] == '.';
      assert at < at + d;
    }
    if exists i, j :: 0 <= i < j < |s| && s[i] == '@' && s[j] == '.' {
      var i, j :| 0 <= i < j < |s| && s[i] == '@' && s[j] == '.';
      assert at <= i;
      assert s[at..][j - at] == '.';
    }
  }

  // ---------------------------------------------------------------------
  // isDigitsOnly
  // ---------------------------------------------------------------------

  /// isDigitsOnly: a non-empty string of decimal digits.
  function IsDigitsOnly(s: string): (ok: bool)
    ensures ok <==> s != [] && forall k :: 0 <= k < |s| ==> IsDigit(s[k])
  {
    if s == [] then false
    else if !IsDigit(s[0]) then false
    else if |s| == 1 then true
    else
      var ok := IsDigitsOnly(s[1..]);
      assert forall k :: 1 <= k < |s| ==> s[k] == s[1..][k - 1];
      ok
  }

  /// A digits-only string is read by atoi as the number it spells, and
  /// "%d" of an integer is digits-only exactly when the integer is not
  /// negative.
  lemma DigitsOnlyAtoi(s: string)
    requires IsDigitsOnly(s)
    ensures Atoi(s) == DigitsToNat(s)
  {
    AtoiDigits(s);
  }

  lemma DigitsOnlyIntToString(i: int)
    ensures IsDigitsOnly(IntToString(i)) <==> i >= 0
  {
    if i < 0 {
      assert IntToString(i)[0] == '-';
    }
  }
}
