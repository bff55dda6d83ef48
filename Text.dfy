/** The three string primitives the log converter leans on: Python's
    `str.strip()`, `str.split(sep)` with an explicit separator, and `int(token)`
    in base 10. */
module Text {
  import opened Results

  // ---------------------------------------------------------------------------
  // str.strip()

  /** The white space `int()` skips around a literal: tab, line feed,
      vertical tab, form feed, carriage return and space among the ASCII
      characters, and every non-ASCII character `str.isspace()` accepts. */
  predicate IsIntSpace(c: char) {
    || '\U{0009}' <= c <= '\U{000D}'
    || c == '\U{0020}'
    || c == '\U{0085}' || c == '\U{00A0}' || c == '\U{1680}'
    || '\U{2000}' <= c <= '\U{200A}'
    || c == '\U{2028}' || c == '\U{2029}' || c == '\U{202F}' || c == '\U{205F}' || c == '\U{3000}'
  }

  /** The characters for which Python's `str.isspace()` is true: those
      above and the ASCII information separators U+001C to U+001F, which
      `int()` does not skip. */
  predicate IsSpace(c: char) {
    IsIntSpace(c) || '\U{001C}' <= c <= '\U{001F}'
  }

  /** Which white space a strip removes: that of `str.strip()` or that of
      `int()`. */
  datatype Blank = StrBlank | IntBlank

  predicate IsBlank(space: Blank, c: char) {
    match space
    case StrBlank => IsSpace(c)
    case IntBlank => IsIntSpace(c)
  }

  /** Drops the leading characters of `s` that satisfy `space`. */
  function StripLeft(space: Blank, s: string): (r: string)
    ensures |r| <= |s|
    ensures r != [] ==> !IsBlank(space, r[0])
  {
    if s != [] && IsBlank(space, s[0]) then StripLeft(space, s[1..]) else s
  }

  /** Drops the trailing characters of `s` that satisfy `space`. */
  function StripRight(space: Blank, s: string): (r: string)
    ensures |r| <= |s|
    ensures r != [] ==> !IsBlank(space, r[|r| - 1])
  {
    if s != [] && IsBlank(space, s[|s| - 1]) then StripRight(space, s[..|s| - 1]) else s
  }

  predicate AllSpace(space: Blank, s: string) {
    forall k :: 0 <= k < |s| ==> IsBlank(space, s[k])
  }

  /** `t` neither starts nor ends with a `space` character. */
  predicate Trimmed(space: Blank, t: string) {
    t != [] ==> !IsBlank(space, t[0]) && !IsBlank(space, t[|t| - 1])
  }

  /** `space` characters removed from both ends of `s`. */
  function StripWith(space: Blank, s: string): (r: string)
    ensures Trimmed(space, r)
    ensures |r| <= |s|
  {
    StripRightKeepsFirst(space, StripLeft(space, s));
    StripRight(space, StripLeft(space, s))
  }

  lemma {:induction false} StripRightKeepsFirst(space: Blank, s: string)
    ensures StripRight(space, s) != [] ==> StripRight(space, s)[0] == s[0]
  {
    if s != [] && IsBlank(space, s[|s| - 1]) {
      StripRightKeepsFirst(space, s[..|s| - 1]);
    }
  }

  /** Python's `s.strip()`: white space removed from both ends. */
  function Strip(s: string): (r: string)
    ensures Trimmed(StrBlank, r)
    ensures |r| <= |s|
  {
    StripWith(StrBlank, s)
  }

  lemma {:induction false} StripLeftOfSpacePrefix(space: Blank, w: string, t: string)
    requires AllSpace(space, w)
    requires t != [] ==> !IsBlank(space, t[0])
    ensures StripLeft(space, w + t) == t
  {
    if w != [] {
      assert (w + t)[1..] == w[1..] + t;
      StripLeftOfSpacePrefix(space, w[1..], t);
    } else {
      assert w + t == t;
    }
  }

  lemma {:induction false} StripRightOfSpaceSuffix(space: Blank, t: string, w: string)
    requires AllSpace(space, w)
    requires t != [] ==> !IsBlank(space, t[|t| - 1])
    ensures StripRight(space, t + w) == t
  {
    if w != [] {
      assert (t + w)[..|t + w| - 1] == t + w[..|w| - 1];
      StripRightOfSpaceSuffix(space, t, w[..|w| - 1]);
    } else {
      assert t + w == t;
    }
  }

  /** Stripping is characterised by what it removes: whatever `space`
      characters surround a trimmed text, stripping gives back exactly that
      text. */
  lemma StripSurrounded(space: Blank, w1: string, t: string, w2: string)
    requires AllSpace(space, w1) && AllSpace(space, w2) && Trimmed(space, t)
    ensures StripWith(space, w1 + t + w2) == t
  {
    assert w1 + t + w2 == w1 + (t + w2);
    if t == [] {
      assert t + w2 == w2;
      StripLeftOfSpacePrefix(space, w1 + w2, []);
      assert w1 + w2 + [] == w1 + w2;
      assert StripLeft(space, w1 + t + w2) == [];
    } else {
      assert (t + w2)[0] == t[0];
      StripLeftOfSpacePrefix(space, w1, t + w2);
      StripRightOfSpaceSuffix(space, t, w2);
    }
  }

  /** What `StripLeft` removes is a prefix of `space` characters. */
  lemma {:induction false} StripLeftParts(space: Blank, s: string) returns (w1: string)
    ensures AllSpace(space, w1) && s == w1 + StripLeft(space, s)
  {
    if s != [] && IsBlank(space, s[0]) {
      var w := StripLeftParts(space, s[1..]);
      w1 := [s[0]] + w;
      assert s == [s[0]] + s[1..];
      assert forall k :: 0 < k < |w1| ==> w1[k] == w[k - 1];
    } else {
      w1 := [];
    }
  }

  /** What `StripRight` removes is a suffix of `space` characters. */
  lemma {:induction false} StripRightParts(space: Blank, s: string) returns (w2: string)
    ensures AllSpace(space, w2) && s == StripRight(space, s) + w2
  {
    if s != [] && IsBlank(space, s[|s| - 1]) {
      var w := StripRightParts(space, s[..|s| - 1]);
      w2 := w + [s[|s| - 1]];
      assert s == s[..|s| - 1] + [s[|s| - 1]];
      assert forall k :: 0 <= k < |w| ==> w2[k] == w[k];
    } else {
      w2 := [];
    }
  }

  /** Stripping splits `s` into the removed `space` prefix, the result and
      the removed `space` suffix. */
  lemma StripParts(space: Blank, s: string) returns (w1: string, w2: string)
    ensures AllSpace(space, w1) && AllSpace(space, w2)
    ensures s == w1 + StripWith(space, s) + w2
  {
    w1 := StripLeftParts(space, s);
    w2 := StripRightParts(space, StripLeft(space, s));
  }

  /** Stripping twice is stripping once. */
  lemma StripIdempotent(s: string)
    ensures Strip(Strip(s)) == Strip(s)
  {
    var t := Strip(s);
    assert [] + t + [] == t;
    StripSurrounded(StrBlank, [], t, []);
  }

  // ---------------------------------------------------------------------------
  // str.split(sep) and its inverse sep.join(pieces)

  /** Python's `sep.join(pieces)` for a one-character separator. */
  function Join(pieces: seq<string>, sep: char): string {
    if pieces == [] then []
    else if |pieces| == 1 then pieces[0]
    else pieces[0] + [sep] + Join(pieces[1..], sep)
  }

  /** Python's `s.split(sep)` for a one-character separator: the maximal
      separator-free pieces between occurrences of `sep`, empty pieces
      included; the empty string splits into one empty piece. */
  function Split(s: string, sep: char): (pieces: seq<string>)
    ensures |pieces| >= 1
    ensures forall i :: 0 <= i < |pieces| ==> sep !in pieces[i]
    ensures Join(pieces, sep) == s
  {
    if s == [] then [[]]
    else
      var rest := Split(s[1..], sep);
      assert s == [s[0]] + s[1..];
      if s[0] == sep then
        var pieces := [[]] + rest;
        assert pieces[1..] == rest;
        assert Join(pieces, sep) == [] + [sep] + Join(rest, sep);
        pieces
      else
        var pieces := [[s[0]] + rest[0]] + rest[1..];
        JoinConsPiece(s[0], rest, sep);
        pieces
  }

  /** Gluing a character onto the first piece glues it onto the joined text. */
  lemma JoinConsPiece(c: char, pieces: seq<string>, sep: char)
    requires |pieces| >= 1
    ensures Join([[c] + pieces[0]] + pieces[1..], sep) == [c] + Join(pieces, sep)
  {
    var glued := [[c] + pieces[0]] + pieces[1..];
    assert glued[1..] == pieces[1..];
  }

  /** There is one more piece than there are separators. */
  lemma {:induction false} SplitCount(s: string, sep: char)
    ensures |Split(s, sep)| == multiset(s)[sep] + 1
  {
    if s != [] {
      SplitCount(s[1..], sep);
      assert s == [s[0]] + s[1..];
      assert multiset(s) == multiset{s[0]} + multiset(s[1..]);
    }
  }

  lemma {:induction false} SplitPiece(p: string, sep: char)
    requires sep !in p
    ensures Split(p, sep) == [p]
  {
    if p != [] {
      SplitPiece(p[1..], sep);
      assert [p[0]] + p[1..] == p;
    }
  }

  lemma {:induction false} SplitAfterPiece(p: string, sep: char, rest: string)
    requires sep !in p
    ensures Split(p + [sep] + rest, sep) == [p] + Split(rest, sep)
  {
    var s := p + [sep] + rest;
    if p == [] {
      assert s[1..] == rest;
    } else {
      assert s[1..] == p[1..] + [sep] + rest;
      SplitAfterPiece(p[1..], sep, rest);
      assert [p[0]] + p[1..] == p;
    }
  }

  /** `Split` undoes `Join`: splitting on the separator recovers exactly the
      separator-free pieces that were joined. */
  lemma {:induction false} SplitJoin(pieces: seq<string>, sep: char)
    requires |pieces| >= 1
    requires forall i :: 0 <= i < |pieces| ==> sep !in pieces[i]
    ensures Split(Join(pieces, sep), sep) == pieces
  {
    if |pieces| == 1 {
      SplitPiece(pieces[0], sep);
    } else {
      SplitJoin(pieces[1..], sep);
      SplitAfterPiece(pieces[0], sep, Join(pieces[1..], sep));
      assert [pieces[0]] + pieces[1..] == pieces;
    }
  }

  // ---------------------------------------------------------------------------
  // int(token), base 10

  predicate IsDigit(c: char) {
    '0' <= c <= '9'
  }

  /** A non-empty run of ASCII digits. */
  predicate IsDigits(ds: string) {
    |ds| > 0 && forall i :: 0 <= i < |ds| ==> IsDigit(ds[i])
  }

  function DigitValue(c: char): (d: nat)
    requires IsDigit(c)
    ensures d < 10
  {
    (c as int) - ('0' as int)
  }

  /** The number a digit string denotes, most significant digit first. */
  function DigitsValue(ds: string): nat
    requires forall i :: 0 <= i < |ds| ==> IsDigit(ds[i])
  {
    if ds == [] then 0
    else DigitsValue(ds[..|ds| - 1]) * 10 + DigitValue(ds[|ds| - 1])
  }

  /** An optional sign and then digits. */
  predicate IsIntLiteral(t: string) {
    || IsDigits(t)
    || (|t| > 1 && (t[0] == '+' || t[0] == '-') && IsDigits(t[1..]))
  }

  /** The value of a stripped literal, or `None` when it is not one. */
  function ParseLiteral(t: string): Option<int> {
    if IsDigits(t) then Some(DigitsValue(t))
    else if IsIntLiteral(t) then
      var magnitude: int := DigitsValue(t[1..]);
      Some(if t[0] == '-' then -magnitude else magnitude)
    else None
  }

  /** Python's `int(token)` in base 10: the `int()` white space around the
      token is skipped, then an optional sign and a run of ASCII decimal
      digits must make up the rest; anything else raises (`None`). */
  function ParseInt(token: string): Option<int> {
    ParseLiteral(StripWith(IntBlank, token))
  }

  /** The value of a signed digit string. */
  function SignedValue(sign: string, ds: string): int
    requires forall i :: 0 <= i < |ds| ==> IsDigit(ds[i])
  {
    var v: int := DigitsValue(ds);
    if sign == "-" then -v else v
  }

  predicate IsSign(sign: string) {
    sign == "" || sign == "+" || sign == "-"
  }

  lemma LiteralTrimmed(sign: string, ds: string)
    requires IsSign(sign) && IsDigits(ds)
    ensures Trimmed(IntBlank, sign + ds)
  {
    var t := sign + ds;
    assert t[|t| - 1] == ds[|ds| - 1];
    assert IsDigit(t[|t| - 1]);
    assert t[0] == '+' || t[0] == '-' || IsDigit(t[0]);
  }

  lemma LiteralValue(sign: string, ds: string)
    requires IsSign(sign) && IsDigits(ds)
    ensures ParseLiteral(sign + ds) == Some(SignedValue(sign, ds))
  {
    var t := sign + ds;
    if sign != "" {
      assert t[1..] == ds;
      assert !IsDigit(t[0]);
    } else {
      assert t == ds;
    }
  }

  /** `int` accepts every literal of the form white space, optional sign,
      digits, white space, and yields its signed value. */
  lemma ParseIntOfLiteral(w1: string, sign: string, ds: string, w2: string)
    requires AllSpace(IntBlank, w1) && AllSpace(IntBlank, w2)
    requires IsSign(sign) && IsDigits(ds)
    ensures ParseInt(w1 + sign + ds + w2) == Some(SignedValue(sign, ds))
  {
    var t := sign + ds;
    assert w1 + sign + ds + w2 == w1 + t + w2;
    LiteralTrimmed(sign, ds);
    StripSurrounded(IntBlank, w1, t, w2);
    LiteralValue(sign, ds);
  }

  /** A literal `ParseLiteral` accepts is a sign followed by digits. */
  lemma LiteralForm(t: string) returns (sign: string, ds: string)
    requires ParseLiteral(t).Some?
    ensures IsSign(sign) && IsDigits(ds) && t == sign + ds
  {
    if IsDigits(t) {
      sign, ds := "", t;
      assert t == sign + ds;
    } else {
      sign, ds := t[..1], t[1..];
      assert t == sign + ds;
    }
  }

  /** Conversely, every token `int` accepts has that form, and its value is
      the signed value of its digits. */
  lemma ParseIntForm(token: string) returns (w1: string, sign: string, ds: string, w2: string)
    requires ParseInt(token).Some?
    ensures AllSpace(IntBlank, w1) && AllSpace(IntBlank, w2)
    ensures IsSign(sign) && IsDigits(ds)
    ensures token == w1 + sign + ds + w2
    ensures ParseInt(token) == Some(SignedValue(sign, ds))
  {
    var t := StripWith(IntBlank, token);
    w1, w2 := StripParts(IntBlank, token);
    sign, ds := LiteralForm(t);
    LiteralValue(sign, ds);
    assert ParseInt(token) == ParseLiteral(t);
    assert w1 + t + w2 == w1 + sign + ds + w2;
  }

  /** A token without surrounding white space is parsed as it stands. */
  lemma ParseIntTrimmed(t: string)
    requires Trimmed(IntBlank, t)
    ensures ParseInt(t) == ParseLiteral(t)
  {
    assert [] + t + [] == t;
    StripSurrounded(IntBlank, [], t, []);
  }

  function DigitChar(d: nat): (c: char)
    requires d < 10
    ensures IsDigit(c) && DigitValue(c) == d
  {
    ('0' as int + d) as char
  }

  /** Python's `str(n)` for a natural number. */
  function NatToString(n: nat): (s: string)
    ensures IsDigits(s)
  {
    if n < 10 then [DigitChar(n)] else NatToString(n / 10) + [DigitChar(n % 10)]
  }

  /** Python's `str(n)`. */
  function IntToString(n: int): string {
    if n < 0 then "-" + NatToString(-n) else NatToString(n)
  }

  lemma {:induction false} NatToStringValue(n: nat)
    ensures DigitsValue(NatToString(n)) == n
  {
    var s := NatToString(n);
    if n >= 10 {
      NatToStringValue(n / 10);
      assert s[..|s| - 1] == NatToString(n / 10);
    }
  }

  /** Leading zeros do not change the value of a digit string. */
  lemma {:induction false} LeadingZeroValue(ds: string)
    requires forall i :: 0 <= i < |ds| ==> IsDigit(ds[i])
    ensures DigitsValue(['0'] + ds) == DigitsValue(ds)
  {
    if ds != [] {
      var ds' := ['0'] + ds;
      assert ds'[..|ds'| - 1] == ['0'] + ds[..|ds| - 1];
      LeadingZeroValue(ds[..|ds| - 1]);
    }
  }

  lemma {:induction false} LeadingZerosValue(zeros: nat, ds: string)
    requires forall i :: 0 <= i < |ds| ==> IsDigit(ds[i])
    ensures var z := seq(zeros, _ => '0') + ds;
            (forall i :: 0 <= i < |z| ==> IsDigit(z[i])) && DigitsValue(z) == DigitsValue(ds)
  {
    if zeros > 0 {
      var shorter := seq(zeros - 1, _ => '0') + ds;
      LeadingZerosValue(zeros - 1, ds);
      assert seq(zeros, _ => '0') + ds == ['0'] + shorter;
      LeadingZeroValue(shorter);
    } else {
      assert seq(zeros, _ => '0') + ds == ds;
    }
  }

  /** `int` undoes `str`: printing an integer and parsing it back gives the
      integer again. */
  lemma ParseIntOfString(n: int)
    ensures ParseInt(IntToString(n)) == Some(n)
  {
    var sign := if n < 0 then "-" else "";
    var m: nat := if n < 0 then -n else n;
    var ds := NatToString(m);
    assert IntToString(n) == sign + ds;
    NatToStringValue(m);
    LiteralTrimmed(sign, ds);
    LiteralValue(sign, ds);
    ParseIntTrimmed(sign + ds);
  }

  /** Zero-padded fields such as "000021" parse to the padded number. */
  lemma ParseIntZeroPadded(zeros: nat, n: nat)
    ensures ParseInt(seq(zeros, _ => '0') + NatToString(n)) == Some(n)
  {
    var ds := seq(zeros, _ => '0') + NatToString(n);
    LeadingZerosValue(zeros, NatToString(n));
    NatToStringValue(n);
    assert "" + ds == ds;
    LiteralTrimmed("", ds);
    LiteralValue("", ds);
    ParseIntTrimmed(ds);
  }

  /** `int` does not skip the ASCII information separator U+001C in front
      of a digit string, although `str.strip()` removes it. */
  lemma ParseIntRejectsSeparator(ds: string)
    requires IsDigits(ds)
    ensures ParseInt(['\U{001C}'] + ds) == None
    ensures Strip(['\U{001C}'] + ds) == ds
  {
    var fs := ['\U{001C}'] + ds;
    SeparatorNotLiteral(ds);
    assert fs[|fs| - 1] == ds[|ds| - 1];
    ParseIntTrimmed(fs);
    LiteralTrimmed("", ds);
    assert "" + ds == ds && fs == [fs[0]] + ds + "";
    StripSurrounded(StrBlank, [fs[0]], ds, "");
  }

  lemma SeparatorNotLiteral(ds: string)
    ensures ParseLiteral(['\U{001C}'] + ds) == None
  {
    var fs := ['\U{001C}'] + ds;
    assert !IsDigit(fs[0]);
    assert !IsDigits(fs);
  }

  /** `int` does skip a non-ASCII space such as the no-break space. */
  lemma ParseIntSkipsNoBreakSpace(ds: string)
    requires IsDigits(ds)
    ensures ParseInt(['\U{00A0}'] + ds) == Some(DigitsValue(ds))
  {
    assert ['\U{00A0}'] + "" + ds + "" == ['\U{00A0}'] + ds;
    ParseIntOfLiteral(['\U{00A0}'], "", ds, "");
  }
}
