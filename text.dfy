/** The string operations the pipelines apply to cell values: Python's
    str.lower and str.strip, the accent table of the e-mail synthesis,
    str() of a cell, the number parser behind pd.to_numeric and the
    message truncation s[:n]. */
module TextOps {
  import opened Tables

  /** Python's str.lower, on ASCII and on the Latin-1 letters U+00C0..U+00DE
      (except the multiplication sign U+00D7), which lower by +0x20. */
  function LowerChar(c: char): (d: char)
    ensures IsUpper(c) ==> d as int == c as int + 32
    ensures !IsUpper(c) ==> d == c
  {
    if IsUpper(c) then (c as int + 32) as char else c
  }

  predicate IsUpper(c: char)
  {
    ('A' <= c <= 'Z') || ('\U{C0}' <= c <= '\U{DE}' && c != '\U{D7}')
  }

  function Lower(s: string): (r: string)
    ensures |r| == |s| && forall i :: 0 <= i < |s| ==> r[i] == LowerChar(s[i])
  {
    if s == [] then [] else [LowerChar(s[0])] + Lower(s[1..])
  }

  /** The characters Python's str.isspace accepts (Unicode categories Zs and
      bidirectional classes WS, B, S). str.strip() removes these. */
  predicate IsSpace(c: char)
  {
    ('\t' <= c <= '\r') || ('\U{1C}' <= c <= '\U{1F}') || c == ' ' || c == '\U{85}'
    || c == '\U{A0}' || c == '\U{1680}' || ('\U{2000}' <= c <= '\U{200A}')
    || c == '\U{2028}' || c == '\U{2029}' || c == '\U{202F}' || c == '\U{205F}'
    || c == '\U{3000}'
  }

  function StripLeft(s: string): (r: string)
    ensures r == [] || !IsSpace(r[0])
    ensures |r| <= |s|
  {
    if s != [] && IsSpace(s[0]) then StripLeft(s[1..]) else s
  }

  /** lstrip removes a leading run of whitespace and nothing else. */
  lemma {:induction false} StripLeftRemovesSpaces(s: string)
    ensures exists k :: 0 <= k <= |s| && StripLeft(s) == s[k..] && forall i :: 0 <= i < k ==> IsSpace(s[i])
  {
    if s != [] && IsSpace(s[0]) {
      StripLeftRemovesSpaces(s[1..]);
      var k :| 0 <= k <= |s| - 1 && StripLeft(s[1..]) == s[1..][k..] && forall i :: 0 <= i < k ==> IsSpace(s[1..][i]);
      assert StripLeft(s) == s[k + 1..];
      assert forall i :: 0 <= i < k + 1 ==> IsSpace(s[i]) by {
        forall i | 0 <= i < k + 1 ensures IsSpace(s[i]) {
          if i > 0 { assert s[i] == s[1..][i - 1]; }
        }
      }
    } else {
      assert StripLeft(s) == s[0..];
    }
  }

  function StripRight(s: string): (r: string)
    ensures r == [] || !IsSpace(r[|r| - 1])
    ensures |r| <= |s|
  {
    if s != [] && IsSpace(s[|s| - 1]) then StripRight(s[..|s| - 1]) else s
  }

  /** rstrip removes a trailing run of whitespace and nothing else. */
  lemma {:induction false} StripRightRemovesSpaces(s: string)
    ensures exists k :: 0 <= k <= |s| && StripRight(s) == s[..k] && forall i :: k <= i < |s| ==> IsSpace(s[i])
  {
    if s != [] && IsSpace(s[|s| - 1]) {
      var init := s[..|s| - 1];
      StripRightRemovesSpaces(init);
      var k :| 0 <= k <= |init| && StripRight(init) == init[..k] && forall i :: k <= i < |init| ==> IsSpace(init[i]);
      assert StripRight(s) == s[..k];
      assert forall i :: k <= i < |s| ==> IsSpace(s[i]) by {
        forall i | k <= i < |s| ensures IsSpace(s[i]) {
          if i < |init| { assert s[i] == init[i]; }
        }
      }
    } else {
      assert StripRight(s) == s[..|s|];
    }
  }

  /** Python's str.strip(): the longest middle part without leading or
      trailing whitespace. */
  function Strip(s: string): (r: string)
    ensures r == [] || (!IsSpace(r[0]) && !IsSpace(r[|r| - 1]))
  {
    StripRightRemovesSpaces(StripLeft(s));
    StripRight(StripLeft(s))
  }

  /** s.replace(' ', ''). */
  function RemoveSpaces(s: string): (r: string)
    ensures forall i :: 0 <= i < |r| ==> r[i] != ' '
  {
    if s == [] then []
    else RemoveSpaces(s[..|s| - 1]) + (if s[|s| - 1] == ' ' then [] else [s[|s| - 1]])
  }

  /** replace(' ', '') keeps every other character, in order: the result is a
      subsequence of s that is shorter exactly by the number of spaces, and
      (holding no space) it is therefore s with its spaces deleted. */
  lemma {:induction false} RemoveSpacesOrder(s: string)
    ensures IsSubsequence(RemoveSpaces(s), s)
    ensures |RemoveSpaces(s)| == |s| - CountChar(' ', s)
  {
    if s != [] {
      var init, last := s[..|s| - 1], s[|s| - 1];
      RemoveSpacesOrder(init);
      assert s == init + [last];
      CountCharConcat(' ', init, [last]);
      if last == ' ' {
        assert RemoveSpaces(s) == RemoveSpaces(init);
        SubsequenceExtend(RemoveSpaces(init), init, last);
      } else {
        assert RemoveSpaces(s) == RemoveSpaces(init) + [last];
        SubsequenceAppend(RemoveSpaces(init), init, last);
      }
    }
  }

  predicate IsAccented(c: char)
  {
    c == '\U{E1}' || c == '\U{E9}' || c == '\U{ED}' || c == '\U{F3}' || c == '\U{FA}'
  }

  /** The five replace calls á→a, é→e, í→i, ó→o, ú→u; every other character is kept. */
  function Deaccent(c: char): (d: char)
    ensures !IsAccented(d)
    ensures !IsAccented(c) ==> d == c
    ensures c == '\U{E1}' ==> d == 'a'
    ensures c == '\U{E9}' ==> d == 'e'
    ensures c == '\U{ED}' ==> d == 'i'
    ensures c == '\U{F3}' ==> d == 'o'
    ensures c == '\U{FA}' ==> d == 'u'
  {
    if c == '\U{E1}' then 'a'
    else if c == '\U{E9}' then 'e'
    else if c == '\U{ED}' then 'i'
    else if c == '\U{F3}' then 'o'
    else if c == '\U{FA}' then 'u'
    else c
  }

  function DeaccentAll(s: string): (r: string)
    ensures |r| == |s| && forall i :: 0 <= i < |s| ==> r[i] == Deaccent(s[i])
  {
    if s == [] then [] else [Deaccent(s[0])] + DeaccentAll(s[1..])
  }

  /** The cleaning applied to a given name or a surname before it becomes part
      of an address: lower, strip, drop spaces, drop the acute accents. */
  function Clean(s: string): (r: string)
    ensures forall i :: 0 <= i < |r| ==> r[i] != ' ' && !IsAccented(r[i])
  {
    var t := RemoveSpaces(Strip(Lower(s)));
    var r := DeaccentAll(t);
    assert forall i :: 0 <= i < |r| ==> r[i] != ' ' by {
      forall i | 0 <= i < |r| ensures r[i] != ' ' { assert r[i] == Deaccent(t[i]); }
    }
    r
  }

  function CountChar(c: char, s: string): (n: nat)
    ensures n <= |s|
  {
    if s == [] then 0 else (if s[0] == c then 1 else 0) + CountChar(c, s[1..])
  }

  lemma {:induction false} CountCharConcat(c: char, a: string, b: string)
    ensures CountChar(c, a + b) == CountChar(c, a) + CountChar(c, b)
  {
    if a == [] {
      assert a + b == b;
    } else {
      assert (a + b)[0] == a[0];
      assert (a + b)[1..] == a[1..] + b;
      CountCharConcat(c, a[1..], b);
    }
  }

  lemma {:induction false} RemoveSpacesNone(s: string)
    requires forall i :: 0 <= i < |s| ==> s[i] != ' '
    ensures RemoveSpaces(s) == s
  {
    if s != [] {
      RemoveSpacesNone(s[..|s| - 1]);
      assert s[..|s| - 1] + [s[|s| - 1]] == s;
    }
  }

  /** A name without whitespace is only lowered and deaccented. */
  lemma CleanNoSpaces(s: string)
    requires forall i :: 0 <= i < |s| ==> !IsSpace(s[i])
    ensures Clean(s) == DeaccentAll(Lower(s))
  {
    LowerNoSpaces(s);
    StripNoSpaces(Lower(s));
    RemoveSpacesNone(Lower(s));
  }

  lemma LowerNoSpaces(s: string)
    requires forall i :: 0 <= i < |s| ==> !IsSpace(s[i])
    ensures forall i :: 0 <= i < |s| ==> !IsSpace(Lower(s)[i]) && Lower(s)[i] != ' '
  {
    forall i | 0 <= i < |s| ensures !IsSpace(Lower(s)[i]) {
      LowerCharNoSpace(s[i]);
    }
  }

  lemma LowerCharNoSpace(c: char)
    requires !IsSpace(c)
    ensures !IsSpace(LowerChar(c))
  {
    if IsUpper(c) {
      assert 'a' <= LowerChar(c) <= 'z' || '\U{E0}' <= LowerChar(c) <= '\U{FE}';
    }
  }

  lemma StripNoSpaces(t: string)
    requires forall i :: 0 <= i < |t| ==> !IsSpace(t[i])
    ensures Strip(t) == t
  {
    if t != [] {
      assert StripLeft(t) == t;
      assert StripRight(t) == t;
    }
  }

  /** An ASCII character that is neither a letter nor whitespace, such as '@'
      or '.': no stage of Clean creates or removes one. */
  predicate IsPlain(c: char)
  {
    c < '\U{80}' && !('A' <= c <= 'Z') && !('a' <= c <= 'z') && !IsSpace(c)
  }

  lemma {:induction false} CleanKeepsPlainChar(c: char, s: string)
    requires IsPlain(c)
    ensures CountChar(c, Clean(s)) == CountChar(c, s)
  {
    LowerKeeps(c, s);
    StripKeeps(c, Lower(s));
    RemoveSpacesKeeps(c, Strip(Lower(s)));
    DeaccentKeeps(c, RemoveSpaces(Strip(Lower(s))));
  }

  lemma {:induction false} LowerKeeps(c: char, s: string)
    requires IsPlain(c)
    ensures CountChar(c, Lower(s)) == CountChar(c, s)
  {
    if s != [] {
      LowerKeeps(c, s[1..]);
      assert Lower(s)[1..] == Lower(s[1..]);
      assert (LowerChar(s[0]) == c) == (s[0] == c) by {
        if IsUpper(s[0]) {
          assert LowerChar(s[0]) == c ==> c >= 'a';
        }
      }
    }
  }

  lemma {:induction false} StripKeeps(c: char, s: string)
    requires !IsSpace(c)
    ensures CountChar(c, Strip(s)) == CountChar(c, s)
  {
    StripLeftKeeps(c, s);
    StripRightKeeps(c, StripLeft(s));
  }

  lemma {:induction false} StripLeftKeeps(c: char, s: string)
    requires !IsSpace(c)
    ensures CountChar(c, StripLeft(s)) == CountChar(c, s)
  {
    if s != [] && IsSpace(s[0]) {
      StripLeftKeeps(c, s[1..]);
    }
  }

  lemma {:induction false} StripRightKeeps(c: char, s: string)
    requires !IsSpace(c)
    ensures CountChar(c, StripRight(s)) == CountChar(c, s)
  {
    if s != [] && IsSpace(s[|s| - 1]) {
      var init := s[..|s| - 1];
      StripRightKeeps(c, init);
      assert s == init + [s[|s| - 1]];
      CountCharConcat(c, init, [s[|s| - 1]]);
    }
  }

  lemma {:induction false} RemoveSpacesKeeps(c: char, s: string)
    requires c != ' '
    ensures CountChar(c, RemoveSpaces(s)) == CountChar(c, s)
  {
    if s != [] {
      var init, last := s[..|s| - 1], s[|s| - 1];
      RemoveSpacesKeeps(c, init);
      assert s == init + [last];
      CountCharConcat(c, init, [last]);
      CountCharConcat(c, RemoveSpaces(init), if last == ' ' then [] else [last]);
    }
  }

  lemma {:induction false} DeaccentKeeps(c: char, s: string)
    requires IsPlain(c)
    ensures CountChar(c, DeaccentAll(s)) == CountChar(c, s)
  {
    if s != [] {
      DeaccentKeeps(c, s[1..]);
      assert DeaccentAll(s)[1..] == DeaccentAll(s[1..]);
      assert (Deaccent(s[0]) == c) == (s[0] == c) by {
        if IsAccented(s[0]) {
          assert 'a' <= Deaccent(s[0]) <= 'z';
        }
      }
    }
  }

  // ---------------------------------------------------------------------
  // Decimal rendering and parsing

  function DigitChar(d: nat): (c: char)
    requires d < 10
    ensures '0' <= c <= '9' && c as int - '0' as int == d
  {
    ('0' as int + d) as char
  }

  predicate IsDigit(c: char) { '0' <= c <= '9' }

  /** The decimal digits of n, most significant first, without leading zeros. */
  function ShowNat(n: nat): (s: string)
    ensures |s| > 0 && forall i :: 0 <= i < |s| ==> IsDigit(s[i])
  {
    if n < 10 then [DigitChar(n)] else ShowNat(n / 10) + [DigitChar(n % 10)]
  }

  /** Python's str() of an integer. */
  function ShowInt(i: int): (s: string)
    ensures |s| > 0
  {
    if i < 0 then "-" + ShowNat(-i) else ShowNat(i)
  }

  /** The integer a string of decimal digits denotes. */
  function DigitsValue(s: string): nat
    requires forall i :: 0 <= i < |s| ==> IsDigit(s[i])
  {
    if s == [] then 0
    else
      assert IsDigit(s[|s| - 1]);
      DigitsValue(s[..|s| - 1]) * 10 + (s[|s| - 1] as int - '0' as int)
  }

  function Pow10(k: nat): (p: nat)
    ensures p >= 1
  {
    if k == 0 then 1 else 10 * Pow10(k - 1)
  }

  predicate AllDigits(s: string) { forall i :: 0 <= i < |s| ==> IsDigit(s[i]) }

  /** The position of the first '.', or |s| when there is none. */
  function DotIndex(s: string): (k: nat)
    ensures k <= |s| && (k < |s| ==> s[k] == '.') && forall i :: 0 <= i < k ==> s[i] != '.'
  {
    if s == [] then 0 else if s[0] == '.' then 0 else 1 + DotIndex(s[1..])
  }

  /** An unsigned decimal: digits, optionally followed by '.' and digits, with
      at least one digit in all ("12", "3.5", ".5", "5."). */
  function ParseUnsigned(s: string): (r: Option<real>)
    ensures r.Some? ==> exists i :: 0 <= i < |s| && IsDigit(s[i])
    ensures r.Some? ==> r.value >= 0.0
  {
    var k := DotIndex(s);
    var whole, frac := s[..k], if k < |s| then s[k + 1..] else [];
    if AllDigits(whole) && AllDigits(frac) && |whole| + |frac| > 0 then
      Some(DigitsValue(whole) as real + DigitsValue(frac) as real / Pow10(|frac|) as real)
    else None
  }

  /** The numbers pd.to_numeric recognises in a text cell, restricted to a
      sign followed by an unsigned decimal; anything else is unparseable. */
  function ParseNumber(s: string): (r: Option<real>)
    ensures r.Some? ==> exists i :: 0 <= i < |s| && IsDigit(s[i])
    ensures r.Some? && s[0] != '-' ==> r.value >= 0.0
  {
    if |s| > 0 && (s[0] == '-' || s[0] == '+') then
      match ParseUnsigned(s[1..])
      case Some(x) => Some(if s[0] == '-' then -x else x)
      case None => None
    else ParseUnsigned(s)
  }

  lemma {:induction false} ShowNatValue(n: nat)
    ensures DigitsValue(ShowNat(n)) == n
  {
    if n >= 10 {
      ShowNatValue(n / 10);
      var s := ShowNat(n);
      assert s[..|s| - 1] == ShowNat(n / 10);
    }
  }

  lemma ShowNatNoDot(n: nat)
    ensures DotIndex(ShowNat(n)) == |ShowNat(n)|
  {
    var s := ShowNat(n);
    assert forall i :: 0 <= i < |s| ==> s[i] != '.';
  }

  /** Parsing what str() prints for an integer gives that integer back. */
  lemma {:induction false} ParseShowInt(i: int)
    ensures ParseNumber(ShowInt(i)) == Some(i as real)
  {
    if i < 0 {
      ParseShowNat(-i);
      assert ShowInt(i)[1..] == ShowNat(-i);
    } else {
      ParseShowNat(i);
      var s := ShowNat(i);
      assert ShowInt(i)[0] != '-' && ShowInt(i)[0] != '+' by { assert IsDigit(s[0]); }
    }
  }

  lemma ParseShowNat(n: nat)
    ensures ParseUnsigned(ShowNat(n)) == Some(n as real)
  {
    ShowNatValue(n);
    ShowNatNoDot(n);
    var s := ShowNat(n);
    assert s[..|s|] == s;
  }

  // ---------------------------------------------------------------------
  // str() of a cell, and truncation

  /** str(v) for a cell: a null cell is the float NaN, which prints as
      "nan"; an integral number prints as an integer. */
  function ToText(v: Value): (r: string)
    ensures v == Null ==> r == "nan"
    ensures v.Text? ==> r == v.s
    ensures v.Num? && v.x == v.x.Floor as real ==> ParseNumber(r) == Some(v.x)
  {
    match v
    case Null => "nan"
    case Text(s) => s
    case Num(x) =>
      if x == x.Floor as real then ParseShowInt(x.Floor); ShowInt(x.Floor)
      else (if x < 0.0 then "-" else "") + ShowFixed(if x < 0.0 then -x else x)
  }

  /** A non-negative number with six decimals, trailing zeros dropped. */
  function ShowFixed(x: real): string
    requires x >= 0.0
  {
    var whole := x.Floor;
    var micro := ((x - whole as real) * 1000000.0).Floor;
    ShowNat(whole) + "." + DropTrailingZeros(Pad6(ShowNat(micro)))
  }

  function Pad6(s: string): string
    decreases 6 - |s|
  {
    if |s| >= 6 then s else Pad6("0" + s)
  }

  function DropTrailingZeros(s: string): string
  {
    if |s| > 1 && s[|s| - 1] == '0' then DropTrailingZeros(s[..|s| - 1]) else s
  }

  /** Python's s[:n] for n >= 0. */
  function Take(s: string, n: nat): (r: string)
    ensures |r| <= n && |r| <= |s|
    ensures r == s[..|r|]
    ensures |s| <= n ==> r == s
    ensures |s| > n ==> |r| == n
  {
    if |s| <= n then s else s[..n]
  }

  /** A shorter cut of a message is a prefix of a longer cut. */
  lemma TakeNested(s: string, m: nat, n: nat)
    requires m <= n
    ensures Take(s, m) == Take(Take(s, n), m)
  {
  }
}
