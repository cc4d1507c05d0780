/**
 * `human_cmp`: natural ordering of strings. A tokenizer splits each string into
 * maximal runs of numeric and of non-numeric chars; numbers compare by magnitude
 * (leading zeros stripped, then length, then digits), text by the accent- and
 * case-folded stream, and a number against text by plain string order. The two
 * token sequences are then compared lexicographically.
 */
module HumanCmp {
  import opened Wrappers
  import opened Unicode
  import opened Order
  import SeqUtil
  import Utf8
  import FoldTable
  import opened FoldStream

  /** `WordOrNumber`: a slice of the source and the class of its chars. */
  datatype Token = Number(text: seq<char>) | Other(text: seq<char>)

  /** Length of the longest prefix of `s` whose chars all have `is_numeric() == isNum`. */
  function RunLength(u: CharData, s: seq<char>, isNum: bool): (n: nat)
    ensures n <= |s|
    ensures forall i :: 0 <= i < n ==> u.isNumeric(s[i]) == isNum
    ensures n < |s| ==> u.isNumeric(s[n]) != isNum
  {
    SeqUtil.FirstIndex(c => u.isNumeric(c) != isNum, s)
  }

  /** The token at the head of a non-empty string and the length it takes. */
  function HeadToken(u: CharData, s: seq<char>): (r: (Token, nat))
    requires s != []
    ensures 1 <= r.1 <= |s| && r.0.text == s[..r.1]
    ensures r.0.Number? == u.isNumeric(s[0])
  {
    var isNum := u.isNumeric(s[0]);
    var n := 1 + RunLength(u, s[1..], isNum);
    (if isNum then Number(s[..n]) else Other(s[..n]), n)
  }

  /** The token sequence the tokenizer `Iter` yields for `s`. */
  function Tokenize(u: CharData, s: seq<char>): seq<Token>
    decreases |s|
  {
    if s == [] then []
    else
      var (t, n) := HeadToken(u, s);
      [t] + Tokenize(u, s[n..])
  }

  /** The texts of the tokens, concatenated in order. */
  function Joined(ts: seq<Token>): seq<char> {
    SeqUtil.FlatMap((t: Token) => t.text, ts)
  }

  /** Every token is a non-empty run of one class, and neighbouring tokens differ in class. */
  predicate MaximalRuns(u: CharData, ts: seq<Token>) {
    && (forall i :: 0 <= i < |ts| ==> ts[i].text != [])
    && (forall i, j :: 0 <= i < |ts| && 0 <= j < |ts[i].text| ==> u.isNumeric(ts[i].text[j]) == ts[i].Number?)
    && (forall i :: 0 <= i < |ts| - 1 ==> ts[i].Number? != ts[i + 1].Number?)
  }

  /** Concatenating the tokens in order gives back the input exactly. */
  lemma {:induction false} TokenizePartition(u: CharData, s: seq<char>)
    ensures Joined(Tokenize(u, s)) == s
    decreases |s|
  {
    if s != [] {
      var (t, n) := HeadToken(u, s);
      TokenizePartition(u, s[n..]);
      var ts := Tokenize(u, s);
      assert ts == [t] + Tokenize(u, s[n..]);
      assert ts[1..] == Tokenize(u, s[n..]);
      assert s == s[..n] + s[n..];
    }
  }

  /** The first token of a non-empty string has the class of its first char. */
  lemma TokenizeHead(u: CharData, s: seq<char>)
    requires s != []
    ensures Tokenize(u, s) != [] && Tokenize(u, s)[0].Number? == u.isNumeric(s[0])
  {
  }

  /** The tokens are maximal runs of numeric and of non-numeric chars. */
  lemma {:induction false} TokenizeMaximalRuns(u: CharData, s: seq<char>)
    ensures MaximalRuns(u, Tokenize(u, s))
    decreases |s|
  {
    if s != [] {
      var (t, n) := HeadToken(u, s);
      var rest := Tokenize(u, s[n..]);
      TokenizeMaximalRuns(u, s[n..]);
      var isNum := u.isNumeric(s[0]);
      assert forall j :: 0 <= j < |t.text| ==> u.isNumeric(t.text[j]) == isNum by {
        forall j | 0 <= j < |t.text| ensures u.isNumeric(t.text[j]) == isNum {
          if j > 0 {
            assert t.text[j] == s[1..][j - 1];
          }
        }
      }
      if rest != [] {
        assert n < |s| && s[n] == s[1..][n - 1];
        TokenizeHead(u, s[n..]);
      }
      var ts := [t] + rest;
      assert Tokenize(u, s) == ts;
      forall i, j | 0 <= i < |ts| && 0 <= j < |ts[i].text|
        ensures u.isNumeric(ts[i].text[j]) == ts[i].Number?
      {
        if i > 0 {
          assert ts[i] == rest[i - 1];
        }
      }
      forall i | 0 <= i < |ts| - 1
        ensures ts[i].Number? != ts[i + 1].Number?
      {
        if i > 0 {
          assert ts[i] == rest[i - 1] && ts[i + 1] == rest[i];
        }
      }
    }
  }

  /**
   * The tokenizer `Iter`: a cursor `pos` into the chars of `s` (the `Peekable<CharIndices>`).
   * Char positions stand for the byte offsets of `char_indices`: they are only used to
   * slice `s` at char boundaries.
   */
  class Tokenizer {
    const u: CharData
    const s: seq<char>
    var pos: nat

    ghost predicate Valid()
      reads this
    {
      pos <= |s|
    }

    /** The tokens still to come. */
    function Remaining(): seq<Token>
      reads this
      requires Valid()
    {
      Tokenize(u, s[pos..])
    }

    /** `Iter::new` */
    constructor (u: CharData, s: seq<char>)
      ensures Valid() && this.u == u && this.s == s && pos == 0
      ensures Remaining() == Tokenize(u, s)
    {
      this.u := u;
      this.s := s;
      pos := 0;
      new;
      assert s[0..] == s;
    }

    /**
     * `take_while`: advance past the chars whose `is_numeric()` equals `isNum`; return the
     * position of the first other char, or None when the input is exhausted.
     */
    method TakeWhile(isNum: bool) returns (end: Option<nat>)
      requires Valid()
      modifies this
      ensures Valid()
      ensures pos == old(pos) + RunLength(u, s[old(pos)..], isNum)
      ensures end == if pos < |s| then Some(pos) else None
    {
      ghost var start := pos;
      while pos < |s|
        invariant start <= pos <= |s|
        invariant forall k :: start <= k < pos ==> u.isNumeric(s[k]) == isNum
      {
        if u.isNumeric(s[pos]) == isNum {
          pos := pos + 1;
        } else {
          SeqUtil.FirstIndexUnique(c => u.isNumeric(c) != isNum, s[start..], pos - start);
          return Some(pos);
        }
      }
      SeqUtil.FirstIndexUnique(c => u.isNumeric(c) != isNum, s[start..], pos - start);
      end := None;
    }

    /** `Iterator::next`: the next token, built from the first char and `take_while`. */
    method Next() returns (t: Option<Token>)
      requires Valid()
      modifies this
      ensures Valid()
      ensures old(Remaining()) == [] ==> t == None && Remaining() == []
      ensures old(Remaining()) != [] ==> t == Some(old(Remaining())[0]) && Remaining() == old(Remaining())[1..]
    {
      if pos == |s| {
        return None;
      }
      ghost var rest := s[pos..];
      var start := pos;
      var c := s[pos];
      pos := pos + 1;
      var isNum := u.isNumeric(c);
      assert s[pos..] == rest[1..];
      var end := TakeWhile(isNum);
      var text := if end.Some? then s[start..end.value] else s[start..];
      t := Some(if isNum then Number(text) else Other(text));
      var (h, n) := HeadToken(u, rest);
      assert n == pos - start && text == rest[..n] && t.value == h;
      assert s[pos..] == rest[n..];
    }
  }

  /** The digits left after `trim_start_matches('0')`. */
  function TrimZeros(s: seq<char>): (r: seq<char>)
    ensures |r| <= |s| && r == s[|s| - |r|..]
    ensures forall i :: 0 <= i < |s| - |r| ==> s[i] == '0'
    ensures r != [] ==> r[0] != '0'
  {
    s[SeqUtil.FirstIndex(c => c != '0', s)..]
  }

  /** `WordOrNumber::cmp` */
  function TokenCmp(u: CharData, a: Token, b: Token): Ordering {
    match (a, b)
    case (Number(l), Number(r)) =>
      var l', r' := TrimZeros(l), TrimZeros(r);
      IntCmp(Utf8.Length(l'), Utf8.Length(r')).Then(SeqCmp(l', r'))
    case (Number(l), Other(r)) => SeqCmp(l, r)
    case (Other(l), Number(r)) => SeqCmp(l, r)
    case (Other(l), Other(r)) => SeqCmp(FoldString(u, l), FoldString(u, r))
  }

  /** `WordOrNumber::eq` */
  predicate TokenEq(u: CharData, a: Token, b: Token) {
    match (a, b)
    case (Number(l), Number(r)) => TrimZeros(l) == TrimZeros(r)
    case (Number(l), Other(r)) => l == r
    case (Other(l), Number(r)) => l == r
    case (Other(l), Other(r)) => FoldString(u, l) == FoldString(u, r)
  }

  /** `eq` holds exactly when `cmp` says Equal. */
  lemma TokenEqIffCmpEqual(u: CharData, a: Token, b: Token)
    ensures TokenEq(u, a, b) <==> TokenCmp(u, a, b) == Equal
  {
    match (a, b)
    case (Number(l), Number(r)) =>
      SeqCmpEqualIff(TrimZeros(l), TrimZeros(r));
    case (Number(l), Other(r)) =>
      SeqCmpEqualIff(l, r);
    case (Other(l), Number(r)) =>
      SeqCmpEqualIff(l, r);
    case (Other(l), Other(r)) =>
      SeqCmpEqualIff(FoldString(u, l), FoldString(u, r));
  }

  /** Swapping two tokens reverses their order. */
  lemma TokenCmpAntisymmetric(u: CharData, a: Token, b: Token)
    ensures TokenCmp(u, b, a) == TokenCmp(u, a, b).Reverse()
  {
    match (a, b)
    case (Number(l), Number(r)) =>
      SeqCmpAntisymmetric(TrimZeros(l), TrimZeros(r));
    case (Number(l), Other(r)) =>
      SeqCmpAntisymmetric(l, r);
    case (Other(l), Number(r)) =>
      SeqCmpAntisymmetric(l, r);
    case (Other(l), Other(r)) =>
      SeqCmpAntisymmetric(FoldString(u, l), FoldString(u, r));
  }

  lemma TokenCmpReflexive(u: CharData, a: Token)
    ensures TokenCmp(u, a, a) == Equal
  {
    TokenEqIffCmpEqual(u, a, a);
  }

  function Digit(c: char): (d: nat)
    requires IsAsciiDigit(c)
    ensures d < 10
  {
    c as int - '0' as int
  }

  /** The value of a string of ASCII digits, most significant first. */
  function DigitsValue(s: seq<char>): nat
    requires forall i :: 0 <= i < |s| ==> IsAsciiDigit(s[i])
  {
    if s == [] then 0 else Digit(s[0]) * Pow10(|s| - 1) + DigitsValue(s[1..])
  }

  function Pow10(n: nat): (r: nat)
    ensures r >= 1
  {
    if n == 0 then 1 else 10 * Pow10(n - 1)
  }

  lemma {:induction false} MulMonotone(x: nat, y: nat, p: nat)
    requires x <= y
    ensures x * p <= y * p
    decreases y - x
  {
    if x < y {
      MulMonotone(x + 1, y, p);
    }
  }

  /** Of two digit strings of one length, the one with the smaller leading digit has the smaller value. */
  lemma LeadingDigitDecides(a: seq<char>, b: seq<char>)
    requires |a| == |b| && a != []
    requires forall i :: 0 <= i < |a| ==> IsAsciiDigit(a[i])
    requires forall i :: 0 <= i < |b| ==> IsAsciiDigit(b[i])
    requires a[0] < b[0]
    ensures DigitsValue(a) < DigitsValue(b)
  {
    var p := Pow10(|a| - 1);
    DigitsValueBound(a[1..]);
    MulMonotone(Digit(a[0]) + 1, Digit(b[0]), p);
    assert (Digit(a[0]) + 1) * p == Digit(a[0]) * p + p;
  }

  lemma {:induction false} DigitsValueBound(s: seq<char>)
    requires forall i :: 0 <= i < |s| ==> IsAsciiDigit(s[i])
    ensures DigitsValue(s) < Pow10(|s|)
    ensures s != [] && s[0] != '0' ==> Pow10(|s| - 1) <= DigitsValue(s)
  {
    if s != [] {
      var p := Pow10(|s| - 1);
      DigitsValueBound(s[1..]);
      MulMonotone(Digit(s[0]), 9, p);
      if s[0] != '0' {
        MulMonotone(1, Digit(s[0]), p);
      }
    }
  }

  /** Leading zeros do not change the value. */
  lemma {:induction false} TrimZerosValue(s: seq<char>)
    requires forall i :: 0 <= i < |s| ==> IsAsciiDigit(s[i])
    ensures DigitsValue(TrimZeros(s)) == DigitsValue(s)
    decreases |s|
  {
    if s != [] && s[0] == '0' {
      assert TrimZeros(s) == TrimZeros(s[1..]) by {
        SeqUtil.FirstIndexUnique(c => c != '0', s[1..], |s| - 1 - |TrimZeros(s)|);
      }
      TrimZerosValue(s[1..]);
    } else if s != [] {
      SeqUtil.FirstIndexUnique(c => c != '0', s, 0);
    }
  }

  /** Digit strings of one length compare as their values do. */
  lemma {:induction false} SameLengthDigits(a: seq<char>, b: seq<char>)
    requires |a| == |b|
    requires forall i :: 0 <= i < |a| ==> IsAsciiDigit(a[i])
    requires forall i :: 0 <= i < |b| ==> IsAsciiDigit(b[i])
    ensures SeqCmp(a, b) == IntCmp(DigitsValue(a), DigitsValue(b))
    decreases |a|
  {
    if a != [] {
      assert SeqCmp(a, b) == CharOrder(a[0], b[0]).Then(SeqCmp(a[1..], b[1..]));
      if a[0] < b[0] {
        LeadingDigitDecides(a, b);
      } else if b[0] < a[0] {
        LeadingDigitDecides(b, a);
      } else {
        SameLengthDigits(a[1..], b[1..]);
      }
    }
  }

  /** Digit strings without leading zeros compare by length first, then digit by digit, as their values do. */
  lemma NoLeadingZerosByMagnitude(l: seq<char>, r: seq<char>)
    requires forall i :: 0 <= i < |l| ==> IsAsciiDigit(l[i])
    requires forall i :: 0 <= i < |r| ==> IsAsciiDigit(r[i])
    requires l != [] ==> l[0] != '0'
    requires r != [] ==> r[0] != '0'
    ensures IntCmp(|l|, |r|).Then(SeqCmp(l, r)) == IntCmp(DigitsValue(l), DigitsValue(r))
  {
    DigitsValueBound(l);
    DigitsValueBound(r);
    if |l| == |r| {
      SameLengthDigits(l, r);
    } else if |l| < |r| {
      Pow10Monotone(|l|, |r| - 1);
    } else {
      Pow10Monotone(|r|, |l| - 1);
    }
  }

  /** The digits left after stripping leading zeros are still digits. */
  lemma TrimZerosDigits(s: seq<char>)
    requires forall i :: 0 <= i < |s| ==> IsAsciiDigit(s[i])
    ensures forall i :: 0 <= i < |TrimZeros(s)| ==> IsAsciiDigit(TrimZeros(s)[i])
  {
    var r := TrimZeros(s);
    forall i | 0 <= i < |r| ensures IsAsciiDigit(r[i]) {
      assert r[i] == s[|s| - |r| + i];
    }
  }

  /** Numbers of ASCII digits compare by magnitude. */
  lemma NumberTokensByMagnitude(u: CharData, a: seq<char>, b: seq<char>)
    requires forall i :: 0 <= i < |a| ==> IsAsciiDigit(a[i])
    requires forall i :: 0 <= i < |b| ==> IsAsciiDigit(b[i])
    ensures TokenCmp(u, Number(a), Number(b)) == IntCmp(DigitsValue(a), DigitsValue(b))
  {
    var l, r := TrimZeros(a), TrimZeros(b);
    TrimZerosDigits(a);
    TrimZerosDigits(b);
    TrimZerosValue(a);
    TrimZerosValue(b);
    Utf8.AsciiLength(l);
    Utf8.AsciiLength(r);
    NoLeadingZerosByMagnitude(l, r);
  }

  lemma {:induction false} Pow10Monotone(m: nat, n: nat)
    requires m <= n
    ensures Pow10(m) <= Pow10(n)
    decreases n
  {
    if m < n {
      Pow10Monotone(m, n - 1);
    }
  }

  /** `human_cmp`, as a specification: `Iterator::cmp` over the two token sequences. */
  function HumanOrder(u: CharData, a: seq<char>, b: seq<char>): Ordering {
    LexBy(Tokenize(u, a), Tokenize(u, b), (x, y) => TokenCmp(u, x, y))
  }

  /** `human_cmp`: walks two tokenizers in step until a pair differs or one runs out. */
  method Compare(u: CharData, a: seq<char>, b: seq<char>) returns (o: Ordering)
    ensures o == HumanOrder(u, a, b)
  {
    var l := new Tokenizer(u, a);
    var r := new Tokenizer(u, b);
    var g := (x, y) => TokenCmp(u, x, y);
    while true
      invariant fresh(l) && fresh(r) && l != r && l.Valid() && r.Valid()
      invariant HumanOrder(u, a, b) == LexBy(l.Remaining(), r.Remaining(), g)
      decreases |l.Remaining()|
    {
      ghost var x, y := l.Remaining(), r.Remaining();
      var p := l.Next();
      var q := r.Next();
      match (p, q)
      case (None, None) => return Equal;
      case (None, Some(_)) => return Less;
      case (Some(_), None) => return Greater;
      case (Some(s), Some(t)) =>
        assert LexBy(x, y, g) == TokenCmp(u, s, t).Then(LexBy(x[1..], y[1..], g));
        var c := TokenCmp(u, s, t);
        if c != Equal {
          return c;
        }
    }
  }

  /** Swapping the arguments reverses the result. */
  lemma HumanOrderAntisymmetric(u: CharData, a: seq<char>, b: seq<char>)
    ensures HumanOrder(u, b, a) == HumanOrder(u, a, b).Reverse()
  {
    var g := (x, y) => TokenCmp(u, x, y);
    forall x, y ensures g(y, x) == g(x, y).Reverse() {
      TokenCmpAntisymmetric(u, x, y);
    }
    LexByAntisymmetric(Tokenize(u, a), Tokenize(u, b), g);
  }

  /** Every string is Equal to itself. */
  lemma HumanOrderReflexive(u: CharData, a: seq<char>)
    ensures HumanOrder(u, a, a) == Equal
  {
    var g := (x, y) => TokenCmp(u, x, y);
    forall x ensures g(x, x) == Equal {
      TokenCmpReflexive(u, x);
    }
    LexByReflexive(Tokenize(u, a), g);
  }

  /** A string of one class tokenizes to a single token. */
  lemma SingleRun(u: CharData, s: seq<char>)
    requires s != []
    requires forall i :: 0 <= i < |s| ==> u.isNumeric(s[i]) == u.isNumeric(s[0])
    ensures Tokenize(u, s) == [if u.isNumeric(s[0]) then Number(s) else Other(s)]
  {
    var (t, n) := HeadToken(u, s);
    assert s[..n] == s && s[n..] == [];
  }

  /** A string of one class followed by one of the other class tokenizes to two tokens. */
  lemma TwoRuns(u: CharData, a: seq<char>, b: seq<char>)
    requires a != [] && b != []
    requires forall i :: 0 <= i < |a| ==> u.isNumeric(a[i]) == u.isNumeric(a[0])
    requires forall i :: 0 <= i < |b| ==> u.isNumeric(b[i]) != u.isNumeric(a[0])
    ensures Tokenize(u, a + b) ==
      [if u.isNumeric(a[0]) then Number(a) else Other(a), if u.isNumeric(b[0]) then Number(b) else Other(b)]
  {
    var s := a + b;
    var (t, n) := HeadToken(u, s);
    assert (s[1..])[|a| - 1] == b[0];
    assert n == |a|;
    assert s[..n] == a && s[n..] == b;
    SingleRun(u, b);
  }

  /** The tests' `""` < `"1"` and `"1"` > `""`: the side that runs out of tokens first is Less. */
  lemma EmptyIsLeastExample(u: CharData)
    ensures HumanOrder(u, "", "1") == Less && HumanOrder(u, "1", "") == Greater
    ensures HumanOrder(u, "a1ac1", "") == Greater
  {
    TokenizeHead(u, "1");
    TokenizeHead(u, "a1ac1");
  }

  /** Two strings of one token each compare as those tokens do. */
  lemma OneTokenEach(u: CharData, a: seq<char>, b: seq<char>, x: Token, y: Token)
    requires Tokenize(u, a) == [x] && Tokenize(u, b) == [y]
    ensures HumanOrder(u, a, b) == TokenCmp(u, x, y)
  {
    var g := (x, y) => TokenCmp(u, x, y);
    assert LexBy([x], [y], g) == g(x, y).Then(LexBy([x][1..], [y][1..], g));
    assert [x][1..] == [] && [y][1..] == [];
  }

  /** Whole strings of ASCII digits compare by their values. */
  lemma DigitStringsByValue(u: CharData, a: seq<char>, b: seq<char>)
    requires AsciiConforming(u) && a != [] && b != []
    requires forall i :: 0 <= i < |a| ==> IsAsciiDigit(a[i])
    requires forall i :: 0 <= i < |b| ==> IsAsciiDigit(b[i])
    ensures HumanOrder(u, a, b) == IntCmp(DigitsValue(a), DigitsValue(b))
  {
    assert forall i :: 0 <= i < |a| ==> IsAscii(a[i]) && u.isNumeric(a[i]);
    assert forall i :: 0 <= i < |b| ==> IsAscii(b[i]) && u.isNumeric(b[i]);
    SingleRun(u, a);
    SingleRun(u, b);
    NumberTokensByMagnitude(u, a, b);
    OneTokenEach(u, a, b, Number(a), Number(b));
  }

  lemma TenValues()
    ensures DigitsValue("10") == 10 && DigitsValue("010") == 10 && DigitsValue("1") == 1
  {
    assert "010"[1..] == "10" && "10"[1..] == "0";
  }

  /** The tests' `"10"` > `"1"` and `"010"` > `"1"`: numbers compare by magnitude, leading zeros stripped. */
  lemma MagnitudeExample(u: CharData)
    requires AsciiConforming(u)
    ensures HumanOrder(u, "10", "1") == Greater
    ensures HumanOrder(u, "010", "1") == Greater
  {
    TenValues();
    DigitStringsByValue(u, "10", "1");
    DigitStringsByValue(u, "010", "1");
  }

  /** The tests' `"-010"` < `"1"`: text against a number compares as plain strings. */
  lemma SignExample(u: CharData)
    requires AsciiConforming(u)
    ensures HumanOrder(u, "-010", "1") == Less
  {
    assert u.isNumeric('0') && u.isNumeric('1') && !u.isNumeric('-');
    SingleRun(u, "1");
    TwoRuns(u, "-", "010");
    assert "-" + "010" == "-010";
    assert SeqCmp("-", "1") == Less;
  }

  /** The tests' `"a"` < `"b"`. */
  lemma LetterExample(u: CharData)
    requires AsciiConforming(u)
    ensures HumanOrder(u, "a", "b") == Less
  {
    assert !u.isNumeric('a') && !u.isNumeric('b');
    SingleRun(u, "a");
    SingleRun(u, "b");
    FoldAscii(u, "a");
    FoldAscii(u, "b");
    assert AsciiLowerStr("a") == "a" && AsciiLowerStr("b") == "b";
  }

  /**
   * The order is not transitive. A number token meets text in plain string order, but
   * two text tokens meet in folded order, and a char whose fold is empty (such as the
   * euro sign, which is neither ASCII nor alphanumeric) sorts below any other text yet
   * above every digit: "-" < "1" < "€" < "-".
   */
  lemma NotTransitiveExample(u: CharData)
    requires AsciiConforming(u)
    requires !u.isNumeric('€') && !u.isAlphanumeric('€')
    requires u.toLower('€') == ['€'] && u.nfd(['€']) == ['€']
    ensures HumanOrder(u, "-", "1") == Less
    ensures HumanOrder(u, "1", "€") == Less
    ensures HumanOrder(u, "€", "-") == Less
  {
    assert u.isNumeric('1') && !u.isNumeric('-');
    SingleRun(u, "-");
    SingleRun(u, "1");
    SingleRun(u, "€");
    OneTokenEach(u, "-", "1", Other("-"), Number("1"));
    OneTokenEach(u, "1", "€", Number("1"), Other("€"));
    OneTokenEach(u, "€", "-", Other("€"), Other("-"));
    EmptyFold(u, '€');
    FoldAscii(u, "-");
    assert AsciiLowerStr("-") == "-";
  }

  /** A char outside ASCII that is not alphanumeric and is its own lowercase and decomposition folds to nothing. */
  lemma EmptyFold(u: CharData, c: char)
    requires !IsAscii(c) && !u.isAlphanumeric(c) && u.toLower(c) == [c] && u.nfd([c]) == [c]
    ensures FoldString(u, [c]) == []
  {
    FoldStringCons(u, [c]);
    assert [c][1..] == [];
    assert FoldTable.LowerNoAccent(u, c) == [] by {
      assert !FoldTable.Kept(u, c);
    }
  }

  /** Two strings of two tokens each compare pair by pair. */
  lemma TwoTokensEach(u: CharData, a: seq<char>, b: seq<char>, x1: Token, x2: Token, y1: Token, y2: Token)
    requires Tokenize(u, a) == [x1, x2] && Tokenize(u, b) == [y1, y2]
    ensures HumanOrder(u, a, b) == TokenCmp(u, x1, y1).Then(TokenCmp(u, x2, y2))
  {
    var g := (x, y) => TokenCmp(u, x, y);
    assert [x1, x2][1..] == [x2] && [y1, y2][1..] == [y2];
    assert LexBy([x2], [y2], g) == g(x2, y2).Then(LexBy([x2][1..], [y2][1..], g));
    assert [x2][1..] == [] && [y2][1..] == [];
  }

  /** A digit followed by a non-numeric char equals the digit followed by a char of the same fold. */
  lemma DigitThenSameFold(u: CharData, c: char, d: char)
    requires AsciiConforming(u) && !u.isNumeric(c) && !u.isNumeric(d)
    requires FoldString(u, [c]) == FoldString(u, [d])
    ensures HumanOrder(u, ['4', c], ['4', d]) == Equal
  {
    assert u.isNumeric('4');
    TwoRuns(u, ['4'], [c]);
    TwoRuns(u, ['4'], [d]);
    assert ['4'] + [c] == ['4', c] && ['4'] + [d] == ['4', d];
    TokenCmpReflexive(u, Number(['4']));
    SeqCmpEqualIff(FoldString(u, [c]), FoldString(u, [d]));
    TwoTokensEach(u, ['4', c], ['4', d], Number(['4']), Other([c]), Number(['4']), Other([d]));
  }

  /**
   * A digit followed by a char that folds to an ASCII letter compares Equal to the digit
   * followed by that letter in either case: the tests' "4é" = "4e", "4ç" = "4c" and "4Ç" = "4C".
   */
  lemma AccentInsensitiveExample(u: CharData, c: char, l: char, base: char, mark: char)
    requires AsciiConforming(u) && !u.isNumeric(c) && IsAsciiLower(base) && !IsAscii(mark)
    requires u.toLower(c) == [l] && u.nfd([l]) == [base, mark] && !u.isAlphanumeric(mark)
    ensures HumanOrder(u, ['4', c], ['4', base]) == Equal
    ensures HumanOrder(u, ['4', c], ['4', AsciiToUpper(base)]) == Equal
  {
    var upper := AsciiToUpper(base);
    assert !u.isNumeric(base) && !u.isNumeric(upper);
    FoldOne(u, c);
    FoldOne(u, base);
    FoldOne(u, upper);
    AccentedFold(u, c, l, base, mark);
    FoldTable.AsciiFold(u, base);
    FoldTable.AsciiFold(u, upper);
    DigitThenSameFold(u, c, base);
    DigitThenSameFold(u, c, upper);
  }
}
