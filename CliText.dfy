/**
 * The text helpers of the replay command line tool: case-insensitive
 * comparison, whitespace trimming, comma splitting as repeated
 * `std::getline(stream, cell, ',')` calls do it, and the decimal
 * conversions `std::stoi`, `std::stoll` and `std::stoull` apply to a cell.
 * Characters follow the "C" locale.
 */
module CliText {
  import opened EngineTypes

  /** `std::tolower` in the "C" locale: only 'A'..'Z' change. */
  function ToLower(c: char): char
  {
    if 'A' <= c <= 'Z' then (c as int + 32) as char else c
  }

  /** `std::isspace` in the "C" locale: space, tab, newline, vertical tab, form feed, carriage return. */
  predicate IsSpace(c: char)
  {
    c == ' ' || c == '\t' || c == '\n' || c == '\U{000B}' || c == '\U{000C}' || c == '\r'
  }

  /** The string with every character passed through `ToLower`. */
  function Lower(s: string): (r: string)
    ensures |r| == |s| && forall i :: 0 <= i < |s| ==> r[i] == ToLower(s[i])
  {
    seq(|s|, i requires 0 <= i < |s| => ToLower(s[i]))
  }

  /**
   * `ieq`: the lengths agree and then the characters, position by
   * position, agree after `ToLower`.
   */
  function Ieq(a: string, b: string): (r: bool)
    ensures r <==> |a| == |b| && forall i :: 0 <= i < |a| ==> ToLower(a[i]) == ToLower(b[i])
  {
    |a| == |b| && AgreeFrom(a, b, 0)
  }

  /** The scan of `Ieq` from position `i` on. */
  function AgreeFrom(a: string, b: string, i: nat): (r: bool)
    requires |a| == |b| && i <= |a|
    ensures r <==> forall j :: i <= j < |a| ==> ToLower(a[j]) == ToLower(b[j])
    decreases |a| - i
  {
    i == |a| || (ToLower(a[i]) == ToLower(b[i]) && AgreeFrom(a, b, i + 1))
  }

  /** Case-insensitive equality is equality of the lower-cased strings. */
  lemma IeqIsLowerEq(a: string, b: string)
    ensures Ieq(a, b) <==> Lower(a) == Lower(b)
  {
    if Lower(a) == Lower(b) {
      forall i | 0 <= i < |a| ensures ToLower(a[i]) == ToLower(b[i]) {
        assert Lower(a)[i] == Lower(b)[i];
      }
    }
  }

  /** Case-insensitive equality is an equivalence. */
  lemma IeqEquivalence(a: string, b: string, c: string)
    ensures Ieq(a, a)
    ensures Ieq(a, b) ==> Ieq(b, a)
    ensures Ieq(a, b) && Ieq(b, c) ==> Ieq(a, c)
  {
    IeqIsLowerEq(a, b);
    IeqIsLowerEq(b, c);
    IeqIsLowerEq(a, c);
    IeqIsLowerEq(b, a);
  }

  predicate AllSpace(s: string)
  {
    forall i :: 0 <= i < |s| ==> IsSpace(s[i])
  }

  /** Neither the first nor the last character is whitespace. */
  predicate NoSurroundingSpace(s: string)
  {
    s == [] || (!IsSpace(s[0]) && !IsSpace(s[|s| - 1]))
  }

  /** The leading-whitespace loop of `trim`: what is left once the leading whitespace is erased. */
  function TrimFront(s: string): (r: string)
    ensures |r| <= |s| && r == s[|s| - |r|..]
    ensures AllSpace(s[..|s| - |r|])
    ensures r == [] || !IsSpace(r[0])
    decreases |s|
  {
    if s != [] && IsSpace(s[0]) then TrimFront(s[1..]) else s
  }

  /** The trailing-whitespace loop of `trim`: what is left once the trailing whitespace is popped. */
  function TrimBack(s: string): (r: string)
    ensures |r| <= |s| && r == s[..|r|]
    ensures AllSpace(s[|r|..])
    ensures r == [] || !IsSpace(r[|r| - 1])
    decreases |s|
  {
    if s != [] && IsSpace(s[|s| - 1]) then TrimBack(s[..|s| - 1]) else s
  }

  /** `trim`: the leading whitespace erased, then the trailing whitespace. */
  function Trim(s: string): (r: string)
    ensures |r| <= |s| && NoSurroundingSpace(r)
  {
    TrimBack(TrimFront(s))
  }

  /** `Trim` only cuts whitespace off the two ends: `s` is `r` between two runs of whitespace. */
  lemma TrimSplits(s: string) returns (p: string, q: string)
    ensures s == p + Trim(s) + q && AllSpace(p) && AllSpace(q)
  {
    var f := TrimFront(s);
    var t := TrimBack(f);
    p := s[..|s| - |f|];
    q := f[|t|..];
    Sandwich(s, f, t);
  }

  /** A prefix `t` of a suffix `f` of `s` sits between what comes before `f` and what follows `t`. */
  lemma Sandwich(s: string, f: string, t: string)
    requires |t| <= |f| <= |s| && f == s[|s| - |f|..] && t == f[..|t|]
    ensures s == s[..|s| - |f|] + t + f[|t|..]
  {
    assert s == s[..|s| - |f|] + f;
    assert f == t + f[|t|..];
  }

  /** Whitespace in front of a text that does not start with whitespace is all `TrimFront` removes. */
  lemma {:induction false} TrimFrontSpaces(p: string, u: string)
    requires AllSpace(p) && (u == [] || !IsSpace(u[0]))
    ensures TrimFront(p + u) == u
    decreases |p|
  {
    if p != [] {
      assert (p + u)[1..] == p[1..] + u;
      TrimFrontSpaces(p[1..], u);
    } else {
      assert p + u == u;
    }
  }

  /** Whitespace behind a text that does not end with whitespace is all `TrimBack` removes. */
  lemma {:induction false} TrimBackSpaces(u: string, q: string)
    requires AllSpace(q) && (u == [] || !IsSpace(u[|u| - 1]))
    ensures TrimBack(u + q) == u
    decreases |q|
  {
    if q != [] {
      assert (u + q)[..|u + q| - 1] == u + q[..|q| - 1];
      TrimBackSpaces(u, q[..|q| - 1]);
    } else {
      assert u + q == u;
    }
  }

  /** `trim` removes exactly the surrounding whitespace: a text without any comes back unchanged. */
  lemma TrimExact(p: string, t: string, q: string)
    requires AllSpace(p) && AllSpace(q) && NoSurroundingSpace(t)
    ensures Trim(p + t + q) == t
  {
    if t == [] {
      assert p + t + q == (p + q) + [];
      assert AllSpace(p + q);
      TrimFrontSpaces(p + q, []);
      TrimBackSpaces([], []);
    } else {
      assert p + t + q == p + (t + q);
      TrimFrontSpaces(p, t + q);
      TrimBackSpaces(t, q);
    }
  }

  /** `trim` is idempotent. */
  lemma TrimIdempotent(s: string)
    ensures Trim(Trim(s)) == Trim(s)
  {
    var t := Trim(s);
    assert [] + t + [] == t;
    TrimExact([], t, []);
  }

  /** A character of the trimmed text is a character of the text. */
  lemma TrimWithin(s: string, c: char)
    requires c in Trim(s)
    ensures c in s
  {
    var p, q := TrimSplits(s);
    InMiddle(p, Trim(s), q, c);
  }

  /** A character of `t` is a character of any text with `t` in the middle. */
  lemma InMiddle(p: string, t: string, q: string, c: char)
    requires c in t
    ensures c in p + t + q
  {
    var i :| 0 <= i < |t| && t[i] == c;
    assert (p + t + q)[|p| + i] == c;
  }

  /** The position of the first comma of `s`, or `|s|` when there is none. */
  function CommaIndex(s: string): (k: nat)
    ensures k <= |s| && (forall i :: 0 <= i < k ==> s[i] != ',') && (k < |s| ==> s[k] == ',')
  {
    if s == [] || s[0] == ',' then 0 else 1 + CommaIndex(s[1..])
  }

  /**
   * The cells successive `std::getline(stream, cell, ',')` calls read from
   * `s`: the text up to the next comma, until the text is used up. A
   * trailing comma therefore ends the last cell without opening an empty
   * one, and an empty text has no cells.
   */
  function Fields(s: string): (cells: seq<string>)
    ensures forall i :: 0 <= i < |cells| ==> ',' !in cells[i]
    decreases |s|
  {
    if s == [] then []
    else
      var k := CommaIndex(s);
      [s[..k]] + Fields(if k < |s| then s[k + 1..] else [])
  }

  /** The cells written out again, separated by commas. */
  function JoinCommas(cells: seq<string>): string
  {
    if cells == [] then ""
    else if |cells| == 1 then cells[0]
    else cells[0] + "," + JoinCommas(cells[1..])
  }

  /** Splitting a comma-joined list of comma-free cells gives the cells back, unless the last cell is empty. */
  lemma {:induction false} FieldsJoin(cells: seq<string>)
    requires forall i :: 0 <= i < |cells| ==> ',' !in cells[i]
    requires cells == [] || cells[|cells| - 1] != ""
    ensures Fields(JoinCommas(cells)) == cells
    decreases |cells|
  {
    if |cells| == 1 {
      var s := cells[0];
      CommaFree(s, []);
      assert s + [] == s;
    } else if |cells| > 1 {
      var s := JoinCommas(cells);
      var rest := JoinCommas(cells[1..]);
      assert s == cells[0] + ([','] + rest);
      CommaFree(cells[0], [','] + rest);
      assert s[|cells[0]| + 1..] == rest;
      assert s[..|cells[0]|] == cells[0];
      FieldsJoin(cells[1..]);
    }
  }

  /** The first comma of `a + b` for a comma-free `a` is that of `b`, shifted by `|a|`. */
  lemma {:induction false} CommaFree(a: string, b: string)
    requires ',' !in a
    requires b == [] || b[0] == ','
    ensures CommaIndex(a + b) == |a|
    decreases |a|
  {
    if a != [] {
      assert (a + b)[1..] == a[1..] + b;
      CommaFree(a[1..], b);
    } else {
      assert a + b == b;
    }
  }

  /** Joining the cells of a text gives the text back, less a trailing comma. */
  lemma {:induction false} JoinFields(s: string)
    ensures JoinCommas(Fields(s)) + TrailingComma(s) == s
    decreases |s|
  {
    if s != [] {
      var k := CommaIndex(s);
      if k == |s| {
        assert s[..k] == s;
        assert Fields(s) == [s];
      } else {
        JoinFieldsStep(s, k);
      }
    }
  }

  /** "," when `s` ends with a comma, otherwise nothing. */
  function TrailingComma(s: string): string
  {
    if s != [] && s[|s| - 1] == ',' then "," else ""
  }

  /** The step of `JoinFields` at a text whose first comma is at `k`. */
  lemma {:induction false} JoinFieldsStep(s: string, k: nat)
    requires s != [] && k == CommaIndex(s) < |s|
    ensures JoinCommas(Fields(s)) + TrailingComma(s) == s
    decreases |s|, 0
  {
    var rest := s[k + 1..];
    var a := s[..k];
    assert s == a + "," + rest;
    assert Fields(s) == [a] + Fields(rest);
    if rest == [] {
      assert Fields(s) == [a];
      assert TrailingComma(s) == ",";
    } else {
      JoinFields(rest);
      var fs := Fields(rest);
      JoinCons(a, fs);
      assert TrailingComma(s) == TrailingComma(rest);
      Regroup(a, JoinCommas(fs), TrailingComma(rest));
    }
  }

  /** Joining a cell in front of a non-empty list puts a comma between them. */
  lemma JoinCons(a: string, fs: seq<string>)
    requires fs != []
    ensures JoinCommas([a] + fs) == a + "," + JoinCommas(fs)
  {
    assert ([a] + fs)[1..] == fs;
  }

  /** Concatenation regrouped around a comma. */
  lemma Regroup(a: string, j: string, t: string)
    ensures a + "," + j + t == a + "," + (j + t)
  {
  }

  /**
   * `split_csv_line`: the `getline` cells, each trimmed. No cell holds a
   * comma or starts or ends with whitespace; quotes have no meaning.
   */
  function SplitCsvLine(line: string): (cells: seq<string>)
    ensures |cells| == |Fields(line)|
    ensures forall i :: 0 <= i < |cells| ==> ',' !in cells[i] && NoSurroundingSpace(cells[i])
  {
    var fs := Fields(line);
    var cells := seq(|fs|, i requires 0 <= i < |fs| => Trim(fs[i]));
    assert forall i :: 0 <= i < |cells| ==> ',' !in cells[i] by {
      forall i | 0 <= i < |cells| ensures ',' !in cells[i] {
        if ',' in cells[i] {
          TrimWithin(fs[i], ',');
        }
      }
    }
    cells
  }

  /**
   * Comma-free cells without surrounding whitespace, the last one not
   * empty, survive being joined with commas and split again.
   */
  lemma SplitJoin(cells: seq<string>)
    requires forall i :: 0 <= i < |cells| ==> ',' !in cells[i] && NoSurroundingSpace(cells[i])
    requires cells == [] || cells[|cells| - 1] != ""
    ensures SplitCsvLine(JoinCommas(cells)) == cells
  {
    FieldsJoin(cells);
    forall i | 0 <= i < |cells| ensures Trim(cells[i]) == cells[i] {
      assert [] + cells[i] + [] == cells[i];
      TrimExact([], cells[i], []);
    }
  }

  // Decimal numbers

  predicate IsDigit(c: char)
  {
    '0' <= c <= '9'
  }

  predicate AllDigits(s: string)
  {
    forall i :: 0 <= i < |s| ==> IsDigit(s[i])
  }

  /** The length of the run of decimal digits `s` starts with. */
  function DigitRun(s: string): (k: nat)
    ensures k <= |s| && AllDigits(s[..k]) && (k < |s| ==> !IsDigit(s[k]))
  {
    if s == [] || !IsDigit(s[0]) then 0 else 1 + DigitRun(s[1..])
  }

  /** The value of a string of decimal digits, most significant first. */
  function DigitsValue(ds: string): nat
    requires AllDigits(ds)
  {
    if ds == [] then 0 else 10 * DigitsValue(ds[..|ds| - 1]) + (ds[|ds| - 1] as int - '0' as int)
  }

  /**
   * What `strtol` and its unsigned kin read in base 10: leading whitespace,
   * an optional sign, then the longest run of digits. None when there is
   * no digit, which the `std::sto*` wrappers report by throwing.
   */
  function LeadingInteger(s: string): Option<int>
  {
    SignedPrefix(TrimFront(s))
  }

  /** An optional sign and the digit run after it. */
  function SignedPrefix(t: string): Option<int>
  {
    if t != [] && t[0] == '-' then
      match DigitPrefix(t[1..])
      case Some(m) => Some(-m)
      case None => None
    else if t != [] && t[0] == '+' then DigitPrefix(t[1..])
    else DigitPrefix(t)
  }

  /** The value of the digit run `u` starts with; None when it starts with no digit. */
  function DigitPrefix(u: string): Option<int>
  {
    var k := DigitRun(u);
    if k == 0 then None else Some(DigitsValue(u[..k]) as int)
  }

  /** `std::stoi`: the leading integer, which must fit in 32 bits. */
  function Stoi(s: string): (r: Option<int>)
    ensures r.Some? ==> -0x8000_0000 <= r.value < 0x8000_0000
  {
    match LeadingInteger(s)
    case Some(v) => if -0x8000_0000 <= v < 0x8000_0000 then Some(v) else None
    case None => None
  }

  /** `std::stoll`: the leading integer, which must fit in 64 bits. */
  function Stoll(s: string): (r: Option<int>)
    ensures r.Some? ==> -0x8000_0000_0000_0000 <= r.value < 0x8000_0000_0000_0000
  {
    match LeadingInteger(s)
    case Some(v) => if -0x8000_0000_0000_0000 <= v < 0x8000_0000_0000_0000 then Some(v) else None
    case None => None
  }

  /**
   * `std::stoull`: the leading integer, whose magnitude must fit in 64
   * bits; a minus sign negates it modulo 2^64.
   */
  function Stoull(s: string): (r: Option<nat>)
    ensures r.Some? ==> r.value < 0x1_0000_0000_0000_0000
  {
    match LeadingInteger(s)
    case Some(v) =>
      if -0x1_0000_0000_0000_0000 < v < 0x1_0000_0000_0000_0000 then Some(v % 0x1_0000_0000_0000_0000) else None
    case None => None
  }

  function DigitChar(d: nat): char
    requires d < 10
  {
    ('0' as int + d) as char
  }

  /** The decimal digits of `n`, without leading zeros. */
  function DecimalString(n: nat): (s: string)
    ensures s != [] && AllDigits(s)
  {
    if n < 10 then [DigitChar(n)] else DecimalString(n / 10) + [DigitChar(n % 10)]
  }

  /** The decimal text of an integer, with a minus sign when negative. */
  function SignedDecimal(v: int): string
  {
    if v < 0 then "-" + DecimalString(-v) else DecimalString(v)
  }

  /** Reading the digits of `n` back gives `n`. */
  lemma {:induction false} DecimalValue(n: nat)
    ensures DigitsValue(DecimalString(n)) == n
    decreases n
  {
    if n >= 10 {
      var s := DecimalString(n);
      assert s[..|s| - 1] == DecimalString(n / 10);
      DecimalValue(n / 10);
    }
  }

  /** A string of digits is one digit run. */
  lemma {:induction false} DigitRunAll(s: string)
    requires AllDigits(s)
    ensures DigitRun(s) == |s|
    decreases |s|
  {
    if s != [] {
      DigitRunAll(s[1..]);
    }
  }

  /** The conversions read back what `SignedDecimal` writes. */
  lemma LeadingIntegerOfDecimal(v: int)
    ensures LeadingInteger(SignedDecimal(v)) == Some(v)
  {
    var m: nat := if v < 0 then -v else v;
    var ds := DecimalString(m);
    DecimalValue(m);
    LeadingIntegerOfDigits(ds, v < 0);
    if v < 0 {
      assert SignedDecimal(v) == "-" + ds;
    } else {
      assert SignedDecimal(v) == "" + ds;
    }
  }

  /** A run of digits, with or without a minus sign in front, reads as its value. */
  lemma LeadingIntegerOfDigits(ds: string, negative: bool)
    requires ds != [] && AllDigits(ds)
    ensures LeadingInteger((if negative then "-" else "") + ds)
      == Some(if negative then -(DigitsValue(ds) as int) else DigitsValue(ds) as int)
  {
    DigitPrefixOfDigits(ds);
    var v := DigitsValue(ds) as int;
    if negative {
      SignedPrefixMinus(ds, v);
      NoLeadingSpace("-" + ds);
    } else {
      assert "" + ds == ds;
      SignedPrefixPlain(ds, v);
      NoLeadingSpace(ds);
    }
  }

  /** A minus sign in front of a digit run negates its value. */
  lemma SignedPrefixMinus(ds: string, v: int)
    requires DigitPrefix(ds) == Some(v)
    ensures SignedPrefix("-" + ds) == Some(-v)
  {
    assert ("-" + ds)[1..] == ds;
  }

  /** A digit run without a sign reads as its value. */
  lemma SignedPrefixPlain(ds: string, v: int)
    requires ds != [] && IsDigit(ds[0]) && DigitPrefix(ds) == Some(v)
    ensures SignedPrefix(ds) == Some(v)
  {
  }

  /** `TrimFront` leaves a text that starts with a sign or a digit alone. */
  lemma NoLeadingSpace(s: string)
    requires s != [] && (s[0] == '-' || IsDigit(s[0]))
    ensures TrimFront(s) == s
  {
  }

  /** A non-empty string of digits is read whole. */
  lemma DigitPrefixOfDigits(ds: string)
    requires ds != [] && AllDigits(ds)
    ensures DigitPrefix(ds) == Some(DigitsValue(ds) as int)
  {
    DigitRunAll(ds);
    assert ds[..|ds|] == ds;
  }

  /** `std::stoll` reads back a 64-bit integer written in decimal. */
  lemma StollOfDecimal(v: int)
    requires -0x8000_0000_0000_0000 <= v < 0x8000_0000_0000_0000
    ensures Stoll(SignedDecimal(v)) == Some(v)
  {
    LeadingIntegerOfDecimal(v);
  }

  /** `std::stoull` reads back an unsigned 64-bit integer written in decimal. */
  lemma StoullOfDecimal(n: nat)
    requires n < 0x1_0000_0000_0000_0000
    ensures Stoull(DecimalString(n)) == Some(n)
  {
    LeadingIntegerOfDecimal(n);
    assert SignedDecimal(n) == DecimalString(n);
    assert n % 0x1_0000_0000_0000_0000 == n;
  }

  /** `std::stoi` reads back a 32-bit integer written in decimal. */
  lemma StoiOfDecimal(v: int)
    requires -0x8000_0000 <= v < 0x8000_0000
    ensures Stoi(SignedDecimal(v)) == Some(v)
  {
    LeadingIntegerOfDecimal(v);
  }
}
