/**
 * `MappedChars`: the lazy stream of the fold of a source string. It drains the
 * pending entry first, then pulls source chars, skipping those whose entry is empty.
 */
module FoldStream {
  import opened Wrappers
  import opened Unicode
  import opened Order
  import SeqUtil
  import FoldTable

  /** The fold of a whole string: the entries of its chars, concatenated in source order. */
  function FoldString(u: CharData, s: seq<char>): seq<char> {
    SeqUtil.FlatMap(c => FoldTable.LowerNoAccent(u, c), s)
  }

  /** The fold of a non-empty string starts with the entry of its first char. */
  lemma FoldStringCons(u: CharData, s: seq<char>)
    requires s != []
    ensures FoldString(u, s) == FoldTable.LowerNoAccent(u, s[0]) + FoldString(u, s[1..])
  {
  }

  /** A one-char string folds to that char's entry. */
  lemma FoldOne(u: CharData, c: char)
    ensures FoldString(u, [c]) == FoldTable.LowerNoAccent(u, c)
  {
    FoldStringCons(u, [c]);
    assert [c][1..] == [];
  }

  /** Two non-empty sequences are equal exactly when their heads and their tails are. */
  lemma EqualIffTails(a: seq<char>, b: seq<char>)
    requires a != [] && b != []
    ensures a == b <==> a[0] == b[0] && a[1..] == b[1..]
  {
    if a[0] == b[0] && a[1..] == b[1..] {
      assert a == [a[0]] + a[1..] && b == [b[0]] + b[1..];
    }
  }

  class MappedChars {
    const u: CharData
    /** The source chars not yet pulled (`chars: Chars<'a>`). */
    var chars: seq<char>
    /** The chars of the current entry not yet returned (`mapped`). */
    var mapped: seq<char>

    /** Everything the stream still yields. */
    function Remaining(): seq<char>
      reads this
    {
      mapped + FoldString(u, chars)
    }

    /** `lower_no_accent_chars`: the full source and an empty pending entry. */
    constructor LowerNoAccentChars(u: CharData, s: seq<char>)
      ensures this.u == u && chars == s && mapped == []
      ensures Remaining() == FoldString(u, s)
    {
      this.u := u;
      chars := s;
      mapped := [];
    }

    /** `#[derive(Clone)]`: a copy of both cursors. */
    constructor Clone(other: MappedChars)
      ensures u == other.u && chars == other.chars && mapped == other.mapped
      ensures Remaining() == other.Remaining()
    {
      u := other.u;
      chars := other.chars;
      mapped := other.mapped;
    }

    /** `Iterator::next` */
    method Next() returns (r: Option<char>)
      modifies this
      ensures old(Remaining()) == [] ==> r == None
      ensures old(Remaining()) != [] ==> r == Some(old(Remaining())[0])
      ensures Remaining() == if r.None? then [] else old(Remaining())[1..]
      ensures old(mapped) != [] ==> chars == old(chars) && mapped == old(mapped)[1..]
    {
      ghost var rem := mapped + FoldString(u, chars);
      if mapped != [] {
        r := Some(mapped[0]);
        mapped := mapped[1..];
        return;
      }
      while chars != []
        invariant mapped == [] && FoldString(u, chars) == rem
        decreases |chars|
      {
        var c := chars[0];
        FoldStringCons(u, chars);
        chars := chars[1..];
        mapped := FoldTable.LowerNoAccent(u, c);
        if mapped != [] {
          r := Some(mapped[0]);
          mapped := mapped[1..];
          return;
        }
      }
      r := None;
    }

    /** `PartialEq::eq`: compares clones element by element, so neither operand advances. */
    method Equals(other: MappedChars) returns (b: bool)
      ensures b <==> Remaining() == other.Remaining()
    {
      var l := new MappedChars.Clone(this);
      var r := new MappedChars.Clone(other);
      while true
        invariant fresh(l) && fresh(r) && l != r
        invariant (Remaining() == other.Remaining()) <==> (l.Remaining() == r.Remaining())
        decreases |l.Remaining()|
      {
        ghost var a, b := l.Remaining(), r.Remaining();
        var x := l.Next();
        var y := r.Next();
        assert l.Remaining() == (if x.None? then [] else a[1..]);
        assert r.Remaining() == (if y.None? then [] else b[1..]);
        if x.None? || y.None? {
          return x == y;
        }
        EqualIffTails(a, b);
        if x.value != y.value {
          return false;
        }
      }
    }

    /** `Ord::cmp`: lexicographic comparison of clones; Equal exactly when `Equals` holds. */
    method Cmp(other: MappedChars) returns (o: Ordering)
      ensures o == SeqCmp(Remaining(), other.Remaining())
      ensures o == Equal <==> Remaining() == other.Remaining()
    {
      var l := new MappedChars.Clone(this);
      var r := new MappedChars.Clone(other);
      SeqCmpEqualIff(Remaining(), other.Remaining());
      while true
        invariant fresh(l) && fresh(r) && l != r
        invariant SeqCmp(Remaining(), other.Remaining()) == SeqCmp(l.Remaining(), r.Remaining())
        decreases |l.Remaining()|
      {
        ghost var a, b := l.Remaining(), r.Remaining();
        var x := l.Next();
        var y := r.Next();
        assert l.Remaining() == (if x.None? then [] else a[1..]);
        assert r.Remaining() == (if y.None? then [] else b[1..]);
        match (x, y)
        case (None, None) => return Equal;
        case (None, Some(_)) => return Less;
        case (Some(_), None) => return Greater;
        case (Some(p), Some(q)) =>
          assert SeqCmp(a, b) == CharOrder(p, q).Then(SeqCmp(a[1..], b[1..]));
          if p != q {
            return CharOrder(p, q);
          }
      }
    }
  }

  /** `collect`: draining the stream yields exactly what remained. */
  method Collect(it: MappedChars) returns (s: seq<char>)
    modifies it
    ensures s == old(it.Remaining())
    ensures it.Remaining() == []
  {
    ghost var total := it.Remaining();
    s := [];
    while true
      invariant s + it.Remaining() == total
      decreases |it.Remaining()|
    {
      ghost var before := it.Remaining();
      var x := it.Next();
      if x.None? {
        assert s == total;
        return;
      }
      assert before == [x.value] + it.Remaining();
      assert (s + [x.value]) + it.Remaining() == s + before;
      s := s + [x.value];
    }
  }

  /** The fold stream of a string yields the fold of each char in source order. */
  method FoldAll(u: CharData, s: seq<char>) returns (folded: seq<char>)
    ensures folded == FoldString(u, s)
  {
    var it := new MappedChars.LowerNoAccentChars(u, s);
    folded := Collect(it);
  }

  /** The fold distributes over concatenation of the source. */
  lemma FoldStringAppend(u: CharData, a: seq<char>, b: seq<char>)
    ensures FoldString(u, a + b) == FoldString(u, a) + FoldString(u, b)
  {
    SeqUtil.FlatMapAppend(c => FoldTable.LowerNoAccent(u, c), a, b);
  }

  /** ASCII text folds to its ASCII lowercase, punctuation and spaces kept. */
  lemma {:induction false} FoldAscii(u: CharData, s: seq<char>)
    requires AsciiConforming(u) && AllAscii(s)
    ensures FoldString(u, s) == AsciiLowerStr(s)
  {
    if s != [] {
      FoldTable.AsciiFold(u, s[0]);
      FoldAscii(u, s[1..]);
    }
  }

  /**
   * A char whose lowercase is one char `l` decomposing into an ASCII char and one
   * non-alphanumeric mark folds to that ASCII char.
   */
  lemma AccentedFold(u: CharData, c: char, l: char, base: char, mark: char)
    requires IsAscii(base) && !IsAscii(mark)
    requires u.toLower(c) == [l] && u.nfd([l]) == [base, mark] && !u.isAlphanumeric(mark)
    ensures FoldTable.LowerNoAccent(u, c) == [base]
  {
    var keep := x => FoldTable.Kept(u, x);
    assert [base, mark][1..] == [mark];
    assert SeqUtil.Filter(keep, [mark]) == [];
  }

  /** The accent-removal example `"àéï"` of the crate's tests. */
  lemma AccentRemovalExample(u: CharData)
    requires u.toLower('à') == ['à'] && u.nfd(['à']) == ['a', '\U{300}'] && !u.isAlphanumeric('\U{300}')
    requires u.toLower('é') == ['é'] && u.nfd(['é']) == ['e', '\U{301}'] && !u.isAlphanumeric('\U{301}')
    requires u.toLower('ï') == ['ï'] && u.nfd(['ï']) == ['i', '\U{308}'] && !u.isAlphanumeric('\U{308}')
    ensures FoldString(u, "àéï") == "aei"
  {
    AccentedFold(u, 'à', 'à', 'a', '\U{300}');
    AccentedFold(u, 'é', 'é', 'e', '\U{301}');
    AccentedFold(u, 'ï', 'ï', 'i', '\U{308}');
    FoldStringCons(u, "àéï");
    FoldStringCons(u, "éï");
    FoldStringCons(u, "ï");
    assert "àéï"[1..] == "éï" && "éï"[1..] == "ï" && "ï"[1..] == "";
  }

  /** Punctuation and spaces between accented chars are kept. */
  lemma PunctuationKeptExample(u: CharData)
    requires AsciiConforming(u)
    requires u.toLower('à') == ['à'] && u.nfd(['à']) == ['a', '\U{300}'] && !u.isAlphanumeric('\U{300}')
    requires u.toLower('é') == ['é'] && u.nfd(['é']) == ['e', '\U{301}'] && !u.isAlphanumeric('\U{301}')
    requires u.toLower('ï') == ['ï'] && u.nfd(['ï']) == ['i', '\U{308}'] && !u.isAlphanumeric('\U{308}')
    ensures FoldString(u, "à.é ï") == "a.e i"
  {
    AccentedFold(u, 'à', 'à', 'a', '\U{300}');
    AccentedFold(u, 'é', 'é', 'e', '\U{301}');
    AccentedFold(u, 'ï', 'ï', 'i', '\U{308}');
    FoldTable.AsciiFold(u, '.');
    FoldTable.AsciiFold(u, ' ');
    var s := "à.é ï";
    FoldStringCons(u, s);
    FoldStringCons(u, s[1..]);
    FoldStringCons(u, s[2..]);
    FoldStringCons(u, s[3..]);
    FoldStringCons(u, s[4..]);
    assert s[1..][1..] == s[2..] && s[2..][1..] == s[3..] && s[3..][1..] == s[4..] && s[4..][1..] == [];
  }

  /** Digits are kept as they are. */
  lemma DigitsKeptExample(u: CharData)
    requires AsciiConforming(u)
    ensures FoldString(u, "123") == "123"
  {
    FoldAscii(u, "123");
  }
}
