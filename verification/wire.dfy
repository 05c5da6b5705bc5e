/** The wire format of every script: integers written in decimal with
    f-strings, joined by commas, and read back with `data.split(",")`
    followed by `int` on each field (key.py:53,64, server1.py:53,
    server2.py:45,49, server.py:32,38-40). */
module Wire {
  import opened Results

  const Comma: char := ','

  predicate IsDigit(c: char)
  {
    '0' <= c <= '9'
  }

  predicate AllDigits(s: string)
  {
    forall i :: 0 <= i < |s| ==> IsDigit(s[i])
  }

  function DigitChar(d: nat): (c: char)
    requires d < 10
    ensures IsDigit(c)
  {
    (('0' as int) + d) as char
  }

  function DigitValue(c: char): nat
    requires IsDigit(c)
  {
    (c as int) - ('0' as int)
  }

  /** str(n) for n >= 0: decimal digits without leading zeros. */
  function FormatNat(n: nat): (s: string)
    ensures |s| >= 1 && AllDigits(s)
    decreases n
  {
    if n < 10 then [DigitChar(n)] else FormatNat(n / 10) + [DigitChar(n % 10)]
  }

  /** str(x), which is what an f-string field `{x}` produces. */
  function FormatInt(x: int): (s: string)
    ensures |s| >= 1 && Comma !in s
  {
    if x < 0 then "-" + FormatNat(-x) else FormatNat(x)
  }

  /** The value of a string of decimal digits (leading zeros allowed). */
  function DigitsValue(s: string): nat
    requires AllDigits(s)
    decreases |s|
  {
    if |s| == 0 then 0 else DigitsValue(s[..|s| - 1]) * 10 + DigitValue(s[|s| - 1])
  }

  /** int(s) on an optional sign followed by one or more ASCII digits;
      None where int() raises ValueError. */
  function ParseInt(s: string): Option<int>
  {
    if |s| > 0 && (s[0] == '-' || s[0] == '+') then
      var digits := s[1..];
      if |digits| > 0 && AllDigits(digits) then
        var v: int := DigitsValue(digits);
        Some(if s[0] == '-' then -v else v)
      else None
    else if |s| > 0 && AllDigits(s) then Some(DigitsValue(s))
    else None
  }

  lemma {:induction false} DigitsValueFormat(n: nat)
    ensures DigitsValue(FormatNat(n)) == n
    decreases n
  {
    if n >= 10 {
      var f := FormatNat(n / 10);
      var s := f + [DigitChar(n % 10)];
      assert s[..|s| - 1] == f;
      DigitsValueFormat(n / 10);
    }
  }

  /** int(str(x)) == x. */
  lemma ParseFormat(x: int)
    ensures ParseInt(FormatInt(x)) == Some(x)
  {
    if x < 0 {
      var s := "-" + FormatNat(-x);
      assert s[1..] == FormatNat(-x);
      DigitsValueFormat(-x);
    } else {
      DigitsValueFormat(x);
    }
  }

  /** The index of the first sep in s. */
  function FirstIndex(s: string, sep: char): (i: nat)
    requires sep in s
    ensures i < |s| && s[i] == sep && sep !in s[..i]
    decreases |s|
  {
    if s[0] == sep then 0
    else
      var i := FirstIndex(s[1..], sep) + 1;
      assert s[..i] == [s[0]] + s[1..][..i - 1];
      i
  }

  /** s.split(sep): the pieces between separators, at least one. */
  function Split(s: string, sep: char): (parts: seq<string>)
    ensures |parts| >= 1
    ensures forall k :: 0 <= k < |parts| ==> sep !in parts[k]
    decreases |s|
  {
    if sep !in s then [s]
    else
      var i := FirstIndex(s, sep);
      [s[..i]] + Split(s[i + 1..], sep)
  }

  /** sep.join(parts). */
  function Join(parts: seq<string>, sep: char): string
    requires |parts| >= 1
    decreases |parts|
  {
    if |parts| == 1 then parts[0] else parts[0] + [sep] + Join(parts[1..], sep)
  }

  /** Splitting a joined list of separator-free pieces gives the pieces back. */
  lemma {:induction false} SplitJoin(parts: seq<string>, sep: char)
    requires |parts| >= 1
    requires forall k :: 0 <= k < |parts| ==> sep !in parts[k]
    ensures Split(Join(parts, sep), sep) == parts
    decreases |parts|
  {
    if |parts| > 1 {
      var p0, rest := parts[0], Join(parts[1..], sep);
      var s := p0 + [sep] + rest;
      assert Join(parts, sep) == s;
      assert s[..|p0|] == p0;
      SplitAt(s, sep, |p0|);
      assert s[|p0| + 1..] == rest;
      SplitJoin(parts[1..], sep);
      assert parts == [p0] + parts[1..];
    }
  }

  /** Where the first separator sits, Split cuts. */
  lemma SplitAt(s: string, sep: char, j: nat)
    requires j < |s| && s[j] == sep && sep !in s[..j]
    ensures Split(s, sep) == [s[..j]] + Split(s[j + 1..], sep)
  {
    FirstIndexIs(s, sep, j);
  }

  /** The first separator is the one with no separator before it. */
  lemma {:induction false} FirstIndexIs(s: string, sep: char, j: nat)
    requires j < |s| && s[j] == sep && sep !in s[..j]
    ensures FirstIndex(s, sep) == j
    decreases j
  {
    if j > 0 {
      assert s[0] == s[..j][0];
      assert s[1..][..j - 1] == s[..j][1..];
      FirstIndexIs(s[1..], sep, j - 1);
    }
  }

  lemma JoinCons(p: string, rest: seq<string>, sep: char)
    requires |rest| >= 1
    ensures Join([p] + rest, sep) == p + [sep] + Join(rest, sep)
  {
    assert ([p] + rest)[1..] == rest;
  }

  /** Joining the pieces of a split gives the string back. */
  lemma {:induction false} JoinSplit(s: string, sep: char)
    ensures Join(Split(s, sep), sep) == s
    decreases |s|
  {
    if sep in s {
      var i := FirstIndex(s, sep);
      var tail := Split(s[i + 1..], sep);
      assert Split(s, sep) == [s[..i]] + tail;
      JoinCons(s[..i], tail, sep);
      JoinSplit(s[i + 1..], sep);
      assert s == s[..i] + [sep] + s[i + 1..];
    }
  }

  /** The decimal fields of xs. */
  function Fields(xs: seq<int>): (fs: seq<string>)
    ensures |fs| == |xs|
  {
    seq(|xs|, i requires 0 <= i < |xs| => FormatInt(xs[i]))
  }

  /** The f-string "{x0},{x1},...". */
  function Encode(xs: seq<int>): string
    requires |xs| >= 1
  {
    Join(Fields(xs), Comma)
  }

  /** int() on every field, failing on the first that is not an integer. */
  function ParseAll(parts: seq<string>): (res: Result<seq<int>>)
    ensures res.Ok? <==> forall k :: 0 <= k < |parts| ==> ParseInt(parts[k]).Some?
    ensures res.Ok? ==> |res.value| == |parts|
    ensures res.Ok? ==> forall k :: 0 <= k < |parts| ==> ParseInt(parts[k]) == Some(res.value[k])
    ensures res.Err? ==> res.error == Malformed
    decreases |parts|
  {
    if |parts| == 0 then Ok([])
    else
      match ParseInt(parts[0])
      case None => Err(Malformed)
      case Some(v) =>
        match ParseAll(parts[1..])
        case Err(e) => Err(e)
        case Ok(vs) => Ok([v] + vs)
  }

  /** `x0, ..., xn = map(int, s.split(","))` with n+1 == arity targets:
      the fields in order, or Malformed when the count is wrong or a field
      is not an integer. */
  function Decode(s: string, arity: nat): (res: Result<seq<int>>)
    ensures res.Ok? <==>
      |Split(s, Comma)| == arity && forall k :: 0 <= k < arity ==> ParseInt(Split(s, Comma)[k]).Some?
    ensures res.Ok? ==> |res.value| == arity
    ensures res.Ok? ==> forall k :: 0 <= k < arity ==> ParseInt(Split(s, Comma)[k]) == Some(res.value[k])
    ensures res.Err? ==> res.error == Malformed
  {
    var parts := Split(s, Comma);
    if |parts| != arity then Err(Malformed) else ParseAll(parts)
  }

  /** Encoding a non-empty list of integers and decoding it with the right
      arity returns the list. */
  lemma DecodeEncode(xs: seq<int>)
    requires |xs| >= 1
    ensures Decode(Encode(xs), |xs|) == Ok(xs)
  {
    var fs := Fields(xs);
    SplitJoin(fs, Comma);
    forall k | 0 <= k < |xs|
      ensures ParseInt(fs[k]) == Some(xs[k])
    {
      ParseFormat(xs[k]);
    }
    var res := Decode(Encode(xs), |xs|);
    assert res.Ok?;
    assert res.value == xs;
  }

  /** A payload with any other number of fields is rejected. */
  lemma DecodeWrongArity(xs: seq<int>, arity: nat)
    requires |xs| >= 1 && arity != |xs|
    ensures Decode(Encode(xs), arity) == Err(Malformed)
  {
    SplitJoin(Fields(xs), Comma);
  }
}
