/** The text conversions of the .NET base library the providers depend on
    to encode records in strings: String.Split on one character, the
    invariant-culture Int32.ToString, and Int32.Parse with
    NumberStyles.Integer. */
module Text {
  import opened Common

  /** The pieces each followed by the separator, concatenated: what a loop
      that appends piece + sep produces. */
  function Terminated(pieces: seq<string>, sep: char): string
  {
    if pieces == [] then [] else Terminated(pieces[..|pieces| - 1], sep) + pieces[|pieces| - 1] + [sep]
  }

  /** The same string read from the front: the first piece, its separator,
      then the rest. */
  lemma {:induction false} TerminatedFront(pieces: seq<string>, sep: char)
    requires pieces != []
    ensures Terminated(pieces, sep) == pieces[0] + [sep] + Terminated(pieces[1..], sep)
    decreases |pieces|
  {
    var n := |pieces|;
    if n > 1 {
      var init := pieces[..n - 1];
      var tail := pieces[1..];
      assert Terminated(init, sep) == pieces[0] + [sep] + Terminated(tail[..n - 2], sep) by {
        TerminatedFront(init, sep);
        assert init[1..] == tail[..n - 2];
      }
      assert Terminated(tail, sep) == Terminated(tail[..n - 2], sep) + pieces[n - 1] + [sep] by {
        assert tail[n - 2] == pieces[n - 1];
      }
    } else {
      assert pieces[..n - 1] == [] && pieces[1..] == [];
    }
  }

  /** String.Split(sep): the pieces between separators, empty ones
      included, so there is always one more piece than separators. */
  function Split(s: string, sep: char): (r: seq<string>)
    ensures |r| >= 1
    decreases |s|
  {
    var i := IndexOf(s, sep);
    if i < 0 then [s] else [s[..i]] + Split(s[i + 1..], sep)
  }

  /** No piece holds the separator. */
  predicate Free(pieces: seq<string>, sep: char)
  {
    forall k :: 0 <= k < |pieces| ==> sep !in pieces[k]
  }

  /** A piece free of the separator, then the separator: Split yields the
      piece and splits the rest. */
  lemma SplitFront(piece: string, rest: string, sep: char)
    requires sep !in piece
    ensures Split(piece + [sep] + rest, sep) == [piece] + Split(rest, sep)
  {
    var s := piece + [sep] + rest;
    assert s[|piece|] == sep;
    assert s[..|piece|] == piece;
    assert IndexOf(s, sep) == |piece|;
    assert s[|piece| + 1..] == rest;
  }

  /** Splitting undoes the terminated concatenation: the pieces come back,
      followed by whatever came after the last separator. */
  lemma {:induction false} SplitTerminated(pieces: seq<string>, last: string, sep: char)
    requires Free(pieces, sep) && sep !in last
    ensures Split(Terminated(pieces, sep) + last, sep) == pieces + [last]
    decreases |pieces|
  {
    if pieces == [] {
      assert Terminated(pieces, sep) + last == last;
    } else {
      var rest := Terminated(pieces[1..], sep) + last;
      assert Split(Terminated(pieces, sep) + last, sep) == [pieces[0]] + Split(rest, sep) by {
        TerminatedFront(pieces, sep);
        assert Terminated(pieces, sep) + last == pieces[0] + [sep] + rest;
        SplitFront(pieces[0], rest, sep);
      }
      assert Free(pieces[1..], sep) by {
        forall k | 0 <= k < |pieces| - 1
          ensures sep !in pieces[1..][k]
        {
          assert pieces[1..][k] == pieces[k + 1];
        }
      }
      SplitTerminated(pieces[1..], last, sep);
      assert pieces + [last] == [pieces[0]] + (pieces[1..] + [last]);
    }
  }

  predicate IsDigit(c: char)
  {
    '0' <= c <= '9'
  }

  predicate AllDigits(s: string)
  {
    forall i :: 0 <= i < |s| ==> IsDigit(s[i])
  }

  function DigitChar(d: nat): (c: char)
    requires d < 10
    ensures IsDigit(c)
  {
    ('0' as int + d) as char
  }

  /** The decimal digits of n, most significant first, no leading zero. */
  function NatToString(n: nat): (r: string)
    ensures |r| >= 1 && AllDigits(r)
  {
    if n < 10 then [DigitChar(n)] else NatToString(n / 10) + [DigitChar(n % 10)]
  }

  /** Int32.ToString(CultureInfo.InvariantCulture). */
  function IntToString(n: int): (r: string)
  {
    if n < 0 then "-" + NatToString(-n) else NatToString(n)
  }

  /** The value of a string of decimal digits. */
  function DigitsValue(s: string): nat
    requires AllDigits(s)
  {
    if s == [] then 0 else DigitsValue(s[..|s| - 1]) * 10 + (s[|s| - 1] as int - '0' as int)
  }

  /** The white space Int32.Parse skips at either end. */
  predicate IsParseWhite(c: char)
  {
    c == ' ' || '\t' <= c <= '\r'
  }

  function SkipWhiteStart(s: string): (r: string)
    ensures |r| <= |s|
  {
    if s != [] && IsParseWhite(s[0]) then SkipWhiteStart(s[1..]) else s
  }

  function SkipWhiteEnd(s: string): (r: string)
    ensures |r| <= |s|
  {
    if s != [] && IsParseWhite(s[|s| - 1]) then SkipWhiteEnd(s[..|s| - 1]) else s
  }

  /** Int32.Parse(s, CultureInfo.InvariantCulture): surrounding white
      space, an optional sign and at least one digit; anything else, or a
      value outside Int32, throws (None). */
  function ParseInt32(s: string): (r: Option<int>)
    ensures r.Some? ==> IsInt32(r.value)
  {
    var t := SkipWhiteEnd(SkipWhiteStart(s));
    var negative := |t| > 0 && t[0] == '-';
    var digits := if |t| > 0 && (t[0] == '-' || t[0] == '+') then t[1..] else t;
    if digits == [] || !AllDigits(digits) then None
    else
      var v: int := if negative then -(DigitsValue(digits) as int) else DigitsValue(digits);
      if IsInt32(v) then Some(v) else None
  }

  lemma {:induction false} DigitsValueOfNatToString(n: nat)
    ensures DigitsValue(NatToString(n)) == n
  {
    if n >= 10 {
      var s := NatToString(n);
      assert s[..|s| - 1] == NatToString(n / 10);
      DigitsValueOfNatToString(n / 10);
    }
  }

  /** Parsing a formatted Int32 gives it back. */
  lemma {:induction false} ParseIntToString(n: int)
    requires IsInt32(n)
    ensures ParseInt32(IntToString(n)) == Some(n)
  {
    var s := IntToString(n);
    var digits := NatToString(if n < 0 then -n else n);
    assert !IsParseWhite(s[0]) && !IsParseWhite(s[|s| - 1]);
    assert SkipWhiteStart(s) == s;
    assert SkipWhiteEnd(s) == s;
    DigitsValueOfNatToString(if n < 0 then -n else n);
    if n < 0 {
      assert s[1..] == digits;
    } else {
      assert s[0] != '-' && s[0] != '+';
    }
  }

  /** A formatted integer holds only digits and a minus sign. */
  lemma IntToStringFree(n: int, c: char)
    requires c != '-' && !IsDigit(c)
    ensures c !in IntToString(n)
  {
    var s := IntToString(n);
    if n < 0 {
      assert forall i :: 1 <= i < |s| ==> s[i] == NatToString(-n)[i - 1];
    }
  }
}
