/** Byte strings of C: sequences of characters without NUL, their comparison by the library, strings inside
    strings, and numbers as text. */
module CString {

  predicate NoNul(s: string) {
    forall i :: 0 <= i < |s| ==> s[i] != '\0'
  }

  // tolower of a letter
  function Lower(c: char): char {
    if 'A' <= c <= 'Z' then (c as int + 32) as char else c
  }

  // strncmp over the whole length of two strings of the same length
  function Strncmp(a: string, b: string): int
    requires |a| == |b|
  {
    if a == "" then 0
    else if a[0] != b[0] then a[0] as int - b[0] as int
    else if a[0] == '\0' then 0
    else Strncmp(a[1..], b[1..])
  }

  lemma {:induction false} StrncmpZero(a: string, b: string)
    requires |a| == |b| && NoNul(a) && NoNul(b)
    ensures Strncmp(a, b) == 0 <==> a == b
  {
    if a != "" && a[0] == b[0] {
      StrncmpZero(a[1..], b[1..]);
      assert a == [a[0]] + a[1..] && b == [b[0]] + b[1..];
    }
  }

  lemma {:induction false} StrncmpFlips(a: string, b: string)
    requires |a| == |b|
    ensures Strncmp(a, b) == -Strncmp(b, a)
  {
    if a != "" && a[0] == b[0] {
      StrncmpFlips(a[1..], b[1..]);
    }
  }

  lemma {:induction false} StrncmpChains(a: string, b: string, c: string)
    requires |a| == |b| == |c| && Strncmp(a, b) < 0 && Strncmp(b, c) < 0
    ensures Strncmp(a, c) < 0
  {
    if a[0] == b[0] == c[0] {
      StrncmpChains(a[1..], b[1..], c[1..]);
    }
  }

  // ----- Strings inside strings -----

  // t stands in s at ptr.
  predicate Has(s: string, ptr: nat, t: string) {
    ptr + |t| <= |s| && forall k :: 0 <= k < |t| ==> t[k] == s[ptr + k]
  }

  lemma HasSplit(s: string, ptr: nat, t: string, u: string)
    ensures Has(s, ptr, t + u) <==> Has(s, ptr, t) && Has(s, ptr + |t|, u)
  {
    assert forall k :: 0 <= k < |t| ==> t[k] == (t + u)[k];
    assert forall k :: 0 <= k < |u| ==> u[k] == (t + u)[|t| + k];
  }

  lemma HasAt(s: string, ptr: nat, t: string, k: nat)
    requires Has(s, ptr, t) && k < |t|
    ensures s[ptr + k] == t[k]
  {
  }

  lemma HasSlice(s: string, ptr: nat, t: string)
    requires Has(s, ptr, t)
    ensures s[ptr..ptr + |t|] == t
  {
  }

  lemma HasRest(s: string, ptr: nat, t: string, n: nat)
    requires Has(s, ptr, t) && n <= |t|
    ensures s[ptr + n..ptr + |t|] == t[n..]
  {
    HasSlice(s, ptr, t);
    assert s[ptr + n..ptr + |t|] == s[ptr..ptr + |t|][n..];
  }

  // ----- Lists of items with a separator -----

  // The items from i on, with sep between them.
  function Join(items: seq<string>, sep: string, i: nat): string
    requires i <= |items|
    decreases |items| - i
  {
    if i == |items| then ""
    else if i + 1 == |items| then items[i]
    else items[i] + sep + Join(items, sep, i + 1)
  }

  // s has, from ptr to end, the items from i on.
  predicate Standing(s: string, ptr: nat, end: nat, items: seq<string>, sep: string, i: nat)
    requires i < |items|
    decreases |items| - i
  {
    && Has(s, ptr, items[i])
    && if i + 1 == |items| then ptr + |items[i]| == end
       else Has(s, ptr + |items[i]|, sep) && Standing(s, ptr + |items[i]| + |sep|, end, items, sep, i + 1)
  }

  lemma JoinStep(s: string, ptr: nat, items: seq<string>, sep: string, i: nat)
    requires i + 1 < |items| && Has(s, ptr, Join(items, sep, i))
    ensures |Join(items, sep, i)| == |items[i]| + |sep| + |Join(items, sep, i + 1)|
    ensures Has(s, ptr, items[i]) && Has(s, ptr + |items[i]|, sep)
    ensures Has(s, ptr + |items[i]| + |sep|, Join(items, sep, i + 1))
  {
    HasSplit(s, ptr, items[i] + sep, Join(items, sep, i + 1));
    HasSplit(s, ptr, items[i], sep);
  }

  lemma {:induction false} JoinStands(s: string, ptr: nat, end: nat, items: seq<string>, sep: string, i: nat)
    requires i < |items| && Has(s, ptr, Join(items, sep, i)) && ptr + |Join(items, sep, i)| == end
    ensures Standing(s, ptr, end, items, sep, i)
    decreases |items| - i
  {
    if i + 1 < |items| {
      JoinStep(s, ptr, items, sep, i);
      JoinStands(s, ptr + |items[i]| + |sep|, end, items, sep, i + 1);
    }
  }

  lemma {:induction false} JoinNoNul(items: seq<string>, sep: string, i: nat)
    requires i <= |items| && NoNul(sep) && forall j :: 0 <= j < |items| ==> NoNul(items[j])
    ensures NoNul(Join(items, sep, i))
    decreases |items| - i
  {
    if i < |items| {
      JoinNoNul(items, sep, i + 1);
    }
  }

  // What is still to be written when i items have been: a separator comes first, unless i is 0.
  function Remaining(items: seq<string>, sep: string, i: nat): string
    requires i <= |items|
  {
    if i == 0 || i == |items| then Join(items, sep, i) else sep + Join(items, sep, i)
  }

  lemma WriteNext(pre: string, items: seq<string>, sep: string, i: nat)
    requires i < |items|
    ensures pre + Remaining(items, sep, i)
            == (if i == 0 then pre else pre + sep) + items[i] + Remaining(items, sep, i + 1)
  {
    var rest := Remaining(items, sep, i + 1);
    assert Join(items, sep, i) == items[i] + rest;
    if i == 0 {
      assert pre + (items[i] + rest) == (pre + items[i]) + rest;
    } else {
      assert pre + (sep + (items[i] + rest)) == ((pre + sep) + items[i]) + rest;
    }
  }

  // ----- Numbers -----

  predicate IsDigit(c: char) {
    '0' <= c <= '9'
  }

  function Digit(n: nat): (c: char)
    requires n < 10
    ensures IsDigit(c) && c as int - '0' as int == n
  {
    '0' + n as char
  }

  function Digits(n: nat): (s: string)
    ensures s != []
  {
    if n < 10 then [Digit(n)] else Digits(n / 10) + [Digit(n % 10)]
  }

  function NatOf(s: string): (n: int) {
    if s == [] then 0 else NatOf(s[..|s| - 1]) * 10 + (s[|s| - 1] as int - '0' as int)
  }

  predicate AllDigits(s: string) {
    forall i :: 0 <= i < |s| ==> IsDigit(s[i])
  }

  lemma {:induction false} DigitsRoundTrip(n: nat)
    ensures AllDigits(Digits(n)) && NatOf(Digits(n)) == n
  {
    var s := Digits(n);
    if n >= 10 {
      DigitsRoundTrip(n / 10);
      assert s[..|s| - 1] == Digits(n / 10);
    } else {
      assert s[..0] == [];
    }
  }

  function DigitRun(s: string): (n: nat)
    ensures n <= |s|
  {
    if s != [] && IsDigit(s[0]) then 1 + DigitRun(s[1..]) else 0
  }

  lemma {:induction false} DigitRunOf(s: string, tail: string)
    requires AllDigits(s) && (tail == [] || !IsDigit(tail[0]))
    ensures DigitRun(s + tail) == |s|
  {
    if s == [] {
      assert s + tail == tail;
    } else {
      assert (s + tail)[1..] == s[1..] + tail;
      DigitRunOf(s[1..], tail);
    }
  }
}
