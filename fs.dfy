/**
 * Filename and relative sub-path validation: a filename is trimmed and must not hold
 * control or reserved punctuation chars, end with a dot or be a reserved device name;
 * a sub-path must not be rooted or start at the home directory, and each of its
 * segments must be a valid filename.
 */
module Fs {
  import opened Wrappers
  import opened Unicode
  import SeqUtil
  import opened Trimming
  import opened CmpExt

  datatype FsError =
    | EmptySegment
    | EndsWithDot
    | Home
    | InvalidChar(c: char)
    | ReservedName(name: seq<char>)
    | Root

  /** The device names a filename may not be, in the order they are tried. */
  const ReservedNames: seq<seq<char>> := [
    "CON", "PRN", "AUX", "NUL", "COM1", "COM2", "COM3", "COM4", "COM5", "COM6", "COM7", "COM8",
    "COM9", "LPT1", "LPT2", "LPT3", "LPT4", "LPT5", "LPT6", "LPT7", "LPT8", "LPT9"
  ]

  /** The punctuation Windows reserves in filenames. */
  predicate IsReservedPunct(c: char) {
    c == '<' || c == '>' || c == ':' || c == '"' || c == '/' || c == '\\' || c == '|' || c == '?' || c == '*'
  }

  /** Chars a filename may not contain. Every char below 31 is also a control char. */
  predicate IsInvalidFilenameChar(u: CharData, c: char) {
    u.isControl(c) || (c as int) < 31 || IsReservedPunct(c)
  }

  predicate EndsWithDotChar(s: seq<char>) {
    s != [] && s[|s| - 1] == '.'
  }

  /** The first of `names` that `t` equals case-insensitively (`eq_ci`), trying them in order. */
  function FindReserved(u: CharData, t: seq<char>, names: seq<seq<char>>): Option<seq<char>> {
    if names == [] then None
    else if StrEq(u, Ci, t, names[0]) then Some(names[0])
    else FindReserved(u, t, names[1..])
  }

  /** The scan finds nothing exactly when no name matches, and otherwise the first one that does. */
  lemma {:induction false} FindReservedFirst(u: CharData, t: seq<char>, names: seq<seq<char>>)
    ensures FindReserved(u, t, names).None? <==> forall k :: 0 <= k < |names| ==> !StrEq(u, Ci, t, names[k])
    ensures FindReserved(u, t, names).Some? ==>
      exists k :: (0 <= k < |names| && FindReserved(u, t, names).value == names[k] && StrEq(u, Ci, t, names[k])
      && forall j :: 0 <= j < k ==> !StrEq(u, Ci, t, names[j]))
  {
    if names != [] {
      FindReservedFirst(u, t, names[1..]);
      if !StrEq(u, Ci, t, names[0]) {
        assert forall k :: 1 <= k < |names| ==> names[k] == names[1..][k - 1];
        if FindReserved(u, t, names).Some? {
          var k :| 0 <= k < |names[1..]| && FindReserved(u, t, names[1..]).value == names[1..][k]
            && StrEq(u, Ci, t, names[1..][k]) && forall j :: 0 <= j < k ==> !StrEq(u, Ci, t, names[1..][j]);
          assert FindReserved(u, t, names).value == names[k + 1];
        }
      }
    }
  }

  /** `s.eq_ci(reserved)` for some reserved name. */
  predicate IsReserved(u: CharData, t: seq<char>) {
    FindReserved(u, t, ReservedNames).Some?
  }

  /** Index of the first invalid char of `s`, or `|s|`. */
  function FirstInvalid(u: CharData, s: seq<char>): (k: nat)
    ensures k <= |s|
    ensures forall j :: 0 <= j < k ==> !IsInvalidFilenameChar(u, s[j])
    ensures k < |s| ==> IsInvalidFilenameChar(u, s[k])
  {
    SeqUtil.FirstIndex(c => IsInvalidFilenameChar(u, c), s)
  }

  /**
   * `validate_filename`: the first invalid char of the untrimmed input, else the trimmed
   * name ending in '.', else the first reserved name it equals case-insensitively; on
   * success the trimmed name.
   */
  function ValidateFilename(u: CharData, s: seq<char>): (r: Result<seq<char>, FsError>)
    ensures r.Ok? <==>
      && (forall i :: 0 <= i < |s| ==> !IsInvalidFilenameChar(u, s[i]))
      && !EndsWithDotChar(Trim(u, s))
      && !IsReserved(u, Trim(u, s))
    ensures r.Ok? ==> r.value == Trim(u, s)
    ensures r.Err? && r.error.InvalidChar? ==> FirstInvalid(u, s) < |s| && r.error.c == s[FirstInvalid(u, s)]
    ensures r == Err(EndsWithDot) <==> FirstInvalid(u, s) == |s| && EndsWithDotChar(Trim(u, s))
    ensures r.Err? && r.error.ReservedName? ==> FindReserved(u, Trim(u, s), ReservedNames) == Some(r.error.name)
    ensures FirstInvalid(u, s) < |s| ==> r == Err(InvalidChar(s[FirstInvalid(u, s)]))
    ensures FirstInvalid(u, s) == |s| && !EndsWithDotChar(Trim(u, s)) && IsReserved(u, Trim(u, s)) ==>
      r == Err(ReservedName(FindReserved(u, Trim(u, s), ReservedNames).value))
  {
    var bad := FirstInvalid(u, s);
    if bad < |s| then Err(InvalidChar(s[bad]))
    else
      var t := Trim(u, s);
      if EndsWithDotChar(t) then Err(EndsWithDot)
      else
        match FindReserved(u, t, ReservedNames)
        case Some(name) => Err(ReservedName(name))
        case None => Ok(t)
  }

  /** Every char of the trimmed string is a char of the string. */
  lemma TrimChars(u: CharData, s: seq<char>)
    ensures forall c :: c in Trim(u, s) ==> c in s
  {
    var i, j :| 0 <= i <= j <= |s| && Trim(u, s) == s[i..j] && AllSpace(u, s[..i]) && AllSpace(u, s[j..]);
    forall c | c in Trim(u, s) ensures c in s {
      var k :| 0 <= k < j - i && s[i..j][k] == c;
      assert s[i + k] == c;
    }
  }

  /** A valid filename is accepted again, unchanged: the validator's output is a fixed point. */
  lemma ValidateFilenameIdempotent(u: CharData, s: seq<char>)
    requires ValidateFilename(u, s).Ok?
    ensures ValidateFilename(u, ValidateFilename(u, s).value) == ValidateFilename(u, s)
  {
    var t := Trim(u, s);
    TrimChars(u, s);
    TrimIdempotent(u, s);
    forall i | 0 <= i < |t| ensures !IsInvalidFilenameChar(u, t[i]) {
      assert t[i] in s;
    }
  }

  predicate IsSeparator(c: char) {
    c == '/' || c == '\\'
  }

  predicate NoSeparator(s: seq<char>) {
    forall i :: 0 <= i < |s| ==> !IsSeparator(s[i])
  }

  /** `split(['/', '\\'])`: the pieces between separators; always at least one, possibly empty. */
  function Split(s: seq<char>): (r: seq<seq<char>>)
    ensures |r| >= 1
    ensures forall k :: 0 <= k < |r| ==> NoSeparator(r[k])
    decreases |s|
  {
    var k := SeqUtil.FirstIndex(IsSeparator, s);
    if k == |s| then [s] else [s[..k]] + Split(s[k + 1..])
  }

  predicate IsPathChar(c: char) {
    !IsSeparator(c)
  }

  /** Filtering out separators keeps the separator-free head and drops the separator after it. */
  lemma {:induction false} FilterAtSeparator(s: seq<char>, k: nat)
    requires k < |s| && IsSeparator(s[k])
    requires forall j :: 0 <= j < k ==> !IsSeparator(s[j])
    ensures SeqUtil.Filter(IsPathChar, s) == s[..k] + SeqUtil.Filter(IsPathChar, s[k + 1..])
  {
    if k == 0 {
      assert s[1..] == s[k + 1..];
    } else {
      FilterAtSeparator(s[1..], k - 1);
      assert s[1..][k..] == s[k + 1..];
      assert s[..k] == [s[0]] + s[1..][..k - 1];
    }
  }

  /** The pieces, put back together, are the input without its separators. */
  lemma {:induction false} SplitPieces(s: seq<char>)
    ensures SeqUtil.Concat(Split(s)) == SeqUtil.Filter(IsPathChar, s)
    decreases |s|
  {
    var k := SeqUtil.FirstIndex(IsSeparator, s);
    if k == |s| {
      SeqUtil.FilterAllKept(IsPathChar, s);
      assert Split(s) == [s];
      assert SeqUtil.Concat([s]) == s + SeqUtil.Concat([]) by {
        assert [s][1..] == [];
      }
    } else {
      var rest := s[k + 1..];
      SplitPieces(rest);
      FilterAtSeparator(s, k);
      assert Split(s) == [s[..k]] + Split(rest);
      assert ([s[..k]] + Split(rest))[1..] == Split(rest);
    }
  }

  /** A string without separators is a single piece. */
  lemma SplitNoSeparator(s: seq<char>)
    requires NoSeparator(s)
    ensures Split(s) == [s]
  {
    SeqUtil.FirstIndexUnique(IsSeparator, s, |s|);
  }

  /** The error of one segment: empty after trimming, or rejected as a filename. */
  function SegmentError(u: CharData, seg: seq<char>): Option<FsError> {
    var t := Trim(u, seg);
    if t == [] then Some(EmptySegment)
    else match ValidateFilename(u, t)
      case Err(e) => Some(e)
      case Ok(_) => None
  }

  /** Every segment is a non-empty, valid filename once trimmed. */
  predicate SegmentsValid(u: CharData, segs: seq<seq<char>>) {
    forall k :: 0 <= k < |segs| ==> SegmentError(u, segs[k]).None?
  }

  /** The first segment error, in order. */
  function FirstSegmentError(u: CharData, segs: seq<seq<char>>): (r: Option<FsError>)
    ensures r.None? <==> SegmentsValid(u, segs)
    ensures r.Some? ==> exists k :: (0 <= k < |segs| && SegmentError(u, segs[k]) == r
      && forall j :: 0 <= j < k ==> SegmentError(u, segs[j]).None?)
  {
    var k := SeqUtil.FirstIndex(HasSegmentError(u), segs);
    if k < |segs| then SegmentError(u, segs[k]) else None
  }

  function HasSegmentError(u: CharData): seq<char> -> bool {
    seg => SegmentError(u, seg).Some?
  }

  /** When the first segment fails, its error is the one reported. */
  lemma HeadSegmentError(u: CharData, segs: seq<seq<char>>)
    requires segs != [] && SegmentError(u, segs[0]).Some?
    ensures FirstSegmentError(u, segs) == SegmentError(u, segs[0])
  {
    SeqUtil.FirstIndexUnique(HasSegmentError(u), segs, 0);
  }

  /** The error of the first failing segment is the one reported. */
  lemma SegmentErrorAt(u: CharData, segs: seq<seq<char>>, k: nat)
    requires k < |segs| && SegmentError(u, segs[k]).Some?
    requires forall j :: 0 <= j < k ==> SegmentError(u, segs[j]).None?
    ensures FirstSegmentError(u, segs) == SegmentError(u, segs[k])
  {
    SeqUtil.FirstIndexUnique(HasSegmentError(u), segs, k);
  }

  predicate StartsRooted(t: seq<char>) {
    t != [] && IsSeparator(t[0])
  }

  predicate StartsAtHome(t: seq<char>) {
    |t| >= 2 && t[0] == '~' && t[1] == '/'
  }

  /**
   * `validate_sub_path`: on the trimmed path, Root for a leading separator, Home for a
   * leading "~/", then the first segment error.
   */
  function ValidateSubPath(u: CharData, s: seq<char>): Result<(), FsError> {
    var t := Trim(u, s);
    if StartsRooted(t) then Err(Root)
    else if StartsAtHome(t) then Err(Home)
    else match FirstSegmentError(u, Split(t))
      case Some(e) => Err(e)
      case None => Ok(())
  }

  /**
   * A sub-path is accepted exactly when, trimmed, it is neither rooted nor at home and
   * every piece is a valid filename; a rooted path reports Root before anything else.
   */
  lemma ValidateSubPathAccepts(u: CharData, s: seq<char>)
    ensures ValidateSubPath(u, s).Ok? <==>
      && !StartsRooted(Trim(u, s)) && !StartsAtHome(Trim(u, s))
      && SegmentsValid(u, Split(Trim(u, s)))
    ensures StartsRooted(Trim(u, s)) ==> ValidateSubPath(u, s) == Err(Root)
    ensures !StartsRooted(Trim(u, s)) && StartsAtHome(Trim(u, s)) ==> ValidateSubPath(u, s) == Err(Home)
    ensures !StartsRooted(Trim(u, s)) && !StartsAtHome(Trim(u, s)) && FirstSegmentError(u, Split(Trim(u, s))).Some? ==>
      ValidateSubPath(u, s) == Err(FirstSegmentError(u, Split(Trim(u, s))).value)
  {
  }

  /** The trimmed pieces of `s`, concatenated in order. */
  function JoinTrimmed(u: CharData, segs: seq<seq<char>>): seq<char> {
    SeqUtil.FlatMap(Trimmer(u), segs)
  }

  function Trimmer(u: CharData): seq<char> -> seq<char> {
    seg => Trim(u, seg)
  }

  /** The loop of `format_sub_path`: push each trimmed piece, in order. */
  method PushTrimmed(u: CharData, segs: seq<seq<char>>) returns (out: seq<char>)
    ensures out == JoinTrimmed(u, segs)
  {
    out := [];
    var i := 0;
    while i < |segs|
      invariant i <= |segs|
      invariant out == JoinTrimmed(u, segs[..i])
    {
      var piece := Trim(u, segs[i]);
      SeqUtil.FlatMapSnoc(Trimmer(u), segs[..i], segs[i]);
      assert segs[..i + 1] == segs[..i] + [segs[i]];
      out := out + piece;
      i := i + 1;
    }
    assert segs[..i] == segs;
  }

  /**
   * `format_sub_path`: validate, then push the trimmed pieces of the (untrimmed) input,
   * in order, without separators between them.
   */
  method FormatSubPath(u: CharData, s: seq<char>) returns (r: Result<seq<char>, FsError>)
    ensures ValidateSubPath(u, s).Err? ==> r == Err(ValidateSubPath(u, s).error)
    ensures ValidateSubPath(u, s).Ok? ==> r == Ok(JoinTrimmed(u, Split(s)))
  {
    var check := ValidateSubPath(u, s);
    if check.Err? {
      return Err(check.error);
    }
    var out := PushTrimmed(u, Split(s));
    r := Ok(out);
  }

  /** Trimming a piece without separators leaves none. */
  lemma TrimNoSeparator(u: CharData, seg: seq<char>)
    requires NoSeparator(seg)
    ensures NoSeparator(Trim(u, seg))
  {
    var t := Trim(u, seg);
    TrimChars(u, seg);
    forall i | 0 <= i < |t| ensures !IsSeparator(t[i]) {
      assert t[i] in seg;
    }
  }

  lemma NoSeparatorAppend(a: seq<char>, b: seq<char>)
    requires NoSeparator(a) && NoSeparator(b)
    ensures NoSeparator(a + b)
  {
    forall i | 0 <= i < |a + b| ensures !IsSeparator((a + b)[i]) {
      if i >= |a| {
        assert (a + b)[i] == b[i - |a|];
      }
    }
  }

  /** The formatted path holds no separator: the trimmed pieces are joined with nothing between them. */
  lemma {:induction false} JoinTrimmedHasNoSeparator(u: CharData, segs: seq<seq<char>>)
    requires forall k :: 0 <= k < |segs| ==> NoSeparator(segs[k])
    ensures NoSeparator(JoinTrimmed(u, segs))
  {
    if segs != [] {
      assert forall k :: 1 <= k < |segs| ==> segs[1..][k - 1] == segs[k];
      JoinTrimmedHasNoSeparator(u, segs[1..]);
      TrimNoSeparator(u, segs[0]);
      assert JoinTrimmed(u, segs) == Trim(u, segs[0]) + JoinTrimmed(u, segs[1..]);
      NoSeparatorAppend(Trim(u, segs[0]), JoinTrimmed(u, segs[1..]));
    }
  }

  /** Every char of every piece is a char of the input. */
  lemma {:induction false} SplitChars(s: seq<char>)
    ensures forall k :: 0 <= k < |Split(s)| ==> forall c :: c in Split(s)[k] ==> c in s
    decreases |s|
  {
    var k := SeqUtil.FirstIndex(IsSeparator, s);
    if k < |s| {
      SplitChars(s[k + 1..]);
      assert Split(s) == [s[..k]] + Split(s[k + 1..]);
      forall j | 0 <= j < |Split(s)| ensures forall c :: c in Split(s)[j] ==> c in s {
        if j == 0 {
          assert forall c :: c in s[..k] ==> c in s;
        } else {
          assert Split(s)[j] == Split(s[k + 1..])[j - 1];
          assert forall c :: c in s[k + 1..] ==> c in s;
        }
      }
    }
  }

  /** Pieces without whitespace are pushed as they are. */
  lemma {:induction false} JoinUntrimmed(u: CharData, segs: seq<seq<char>>)
    requires forall k :: 0 <= k < |segs| ==> forall c :: c in segs[k] ==> !u.isWhitespace(c)
    ensures JoinTrimmed(u, segs) == SeqUtil.Concat(segs)
  {
    if segs != [] {
      JoinUntrimmed(u, segs[1..]);
      var seg := segs[0];
      if seg != [] {
        assert seg[0] in seg && seg[|seg| - 1] in seg;
      }
      TrimNoSpaceAtEnds(u, seg);
    }
  }

  /** Without whitespace in the input, formatting only drops the separators. */
  lemma FormatWithoutSpaces(u: CharData, s: seq<char>)
    requires forall i :: 0 <= i < |s| ==> !u.isWhitespace(s[i])
    ensures JoinTrimmed(u, Split(s)) == SeqUtil.Filter(IsPathChar, s)
  {
    SplitChars(s);
    JoinUntrimmed(u, Split(s));
    SplitPieces(s);
  }

  /** Splitting at the first separator. */
  lemma SplitAt(s: seq<char>, k: nat)
    requires k < |s| && IsSeparator(s[k]) && NoSeparator(s[..k])
    ensures Split(s) == [s[..k]] + Split(s[k + 1..])
  {
    SeqUtil.FirstIndexUnique(IsSeparator, s, k);
  }

  /** Two separator-free pieces joined by '/' split back into those pieces. */
  lemma SplitPair(a: seq<char>, b: seq<char>)
    requires NoSeparator(a) && NoSeparator(b)
    ensures Split(a + "/" + b) == [a, b]
  {
    var s := a + "/" + b;
    assert s[..|a|] == a && s[|a| + 1..] == b;
    SplitAt(s, |a|);
    SplitNoSeparator(b);
  }

  /** Every reserved name has three or four chars, and starts with one of C, P, A, N, L. */
  lemma ReservedNameShapes()
    ensures forall k :: 0 <= k < |ReservedNames| ==> 3 <= |ReservedNames[k]| <= 4 && ReservedNames[k][0] in "CPANL"
    ensures forall k :: 0 <= k < |ReservedNames| && |ReservedNames[k]| == 4 ==> ReservedNames[k][0] in "CL"
  {
  }

  /** A name of any other length is not reserved. */
  lemma NotReservedByLength(u: CharData, t: seq<char>)
    requires |t| < 3 || |t| > 4
    ensures !IsReserved(u, t)
  {
    ReservedNameShapes();
    FindReservedFirst(u, t, ReservedNames);
    forall k | 0 <= k < |ReservedNames| ensures !StrEq(u, Ci, t, ReservedNames[k]) {
      LengthMismatch(u, Ci, t, ReservedNames[k]);
    }
  }

  /** Names whose ASCII first chars differ in lowercase are not `eq_ci`. */
  lemma FirstCharDiffers(u: CharData, t: seq<char>, name: seq<char>)
    requires AsciiConforming(u) && t != [] && name != []
    requires IsAscii(t[0]) && IsAscii(name[0]) && AsciiToLower(t[0]) != AsciiToLower(name[0])
    ensures !StrEq(u, Ci, t, name)
  {
    assert u.toLower(t[0]) == [AsciiToLower(t[0])];
    assert u.toLower(name[0]) == [AsciiToLower(name[0])];
    assert !CharEq(u, Ci, t[0], name[0]);
  }

  /** A name whose first char is ASCII and lowers to none of c, p, a, n, l is not reserved. */
  lemma NotReservedByFirstChar(u: CharData, t: seq<char>)
    requires AsciiConforming(u)
    requires t != [] && IsAscii(t[0]) && AsciiToLower(t[0]) !in "cpanl"
    ensures !IsReserved(u, t)
  {
    ReservedNameShapes();
    FindReservedFirst(u, t, ReservedNames);
    forall k | 0 <= k < |ReservedNames| ensures !StrEq(u, Ci, t, ReservedNames[k]) {
      FirstCharDiffers(u, t, ReservedNames[k]);
    }
  }

  /** A four-char name whose ASCII first char lowers to neither c nor l is not reserved. */
  lemma NotReservedFourChars(u: CharData, t: seq<char>)
    requires AsciiConforming(u)
    requires |t| == 4 && IsAscii(t[0]) && AsciiToLower(t[0]) !in "cl"
    ensures !IsReserved(u, t)
  {
    ReservedNameShapes();
    FindReservedFirst(u, t, ReservedNames);
    forall k | 0 <= k < |ReservedNames| ensures !StrEq(u, Ci, t, ReservedNames[k]) {
      if |ReservedNames[k]| == 4 {
        FirstCharDiffers(u, t, ReservedNames[k]);
      } else {
        LengthMismatch(u, Ci, t, ReservedNames[k]);
      }
    }
  }

  /** Printable ASCII chars that are not reserved punctuation. */
  predicate PlainAscii(s: seq<char>) {
    forall i :: 0 <= i < |s| ==> 32 < s[i] as int < 127 && !IsReservedPunct(s[i])
  }

  /** Plain ASCII chars are valid filename chars, none is a separator, and a plain string is its own trim. */
  lemma PlainChars(u: CharData, t: seq<char>)
    requires AsciiConforming(u) && PlainAscii(t)
    ensures FirstInvalid(u, t) == |t|
    ensures NoSeparator(t)
    ensures Trim(u, t) == t
  {
    forall i | 0 <= i < |t| ensures !IsInvalidFilenameChar(u, t[i]) && !u.isWhitespace(t[i]) {
      assert IsAscii(t[i]);
    }
    TrimNoSpaceAtEnds(u, t);
  }

  /** The error of a non-empty plain segment: a trailing dot first, then a reserved name. */
  lemma PlainSegmentError(u: CharData, t: seq<char>)
    requires AsciiConforming(u) && t != [] && PlainAscii(t)
    ensures EndsWithDotChar(t) ==> SegmentError(u, t) == Some(EndsWithDot)
    ensures !EndsWithDotChar(t) && !IsReserved(u, t) ==> SegmentError(u, t) == None
  {
    PlainChars(u, t);
  }

  /** A path that is a single plain segment reports that segment's error. */
  lemma OneSegmentPath(u: CharData, s: seq<char>)
    requires AsciiConforming(u) && s != [] && PlainAscii(s)
    ensures ValidateSubPath(u, s) == match SegmentError(u, s) case Some(e) => Err(e) case None => Ok(())
  {
    PlainChars(u, s);
    SplitNoSeparator(s);
    assert !StartsAtHome(s) by {
      if |s| >= 2 {
        assert !IsSeparator(s[1]);
      }
    }
    if SegmentError(u, s).Some? {
      HeadSegmentError(u, [s]);
    } else {
      assert SegmentsValid(u, [s]);
    }
  }

  /** The test's rooted path "/". */
  lemma RootExample(u: CharData)
    requires AsciiConforming(u)
    ensures ValidateSubPath(u, "/") == Err(Root)
  {
    TrimNoSpaceAtEnds(u, "/");
  }

  /** The test's "~/", which starts at the home directory. */
  lemma HomeExample(u: CharData)
    requires AsciiConforming(u)
    ensures ValidateSubPath(u, "~/") == Err(Home)
  {
    TrimNoSpaceAtEnds(u, "~/");
    ValidateSubPathAccepts(u, "~/");
  }

  /** The test's "txt.", a name ending in a dot. */
  lemma TrailingDotExample(u: CharData)
    requires AsciiConforming(u)
    ensures ValidateSubPath(u, "txt.") == Err(EndsWithDot)
  {
    assert PlainAscii("txt.");
    PlainSegmentError(u, "txt.");
    OneSegmentPath(u, "txt.");
  }

  /** The test's "./": its first piece "." ends in a dot. */
  lemma DotSegmentExample(u: CharData)
    requires AsciiConforming(u)
    ensures ValidateSubPath(u, "./") == Err(EndsWithDot)
  {
    var s := "./";
    TrimNoSpaceAtEnds(u, s);
    SplitAt(s, 1);
    assert s[..1] == "." && s[2..] == [];
    assert Split(s) == [".", []];
    assert PlainAscii(".");
    PlainSegmentError(u, ".");
    HeadSegmentError(u, [".", []]);
    ValidateSubPathAccepts(u, s);
  }

  /** The test's "~": a lone tilde is a valid relative path. */
  lemma TildeExample(u: CharData)
    requires AsciiConforming(u)
    ensures ValidateSubPath(u, "~").Ok?
  {
    assert PlainAscii("~");
    NotReservedByLength(u, "~");
    PlainSegmentError(u, "~");
    OneSegmentPath(u, "~");
  }

  lemma ValidPair(u: CharData, a: seq<char>, b: seq<char>)
    requires SegmentError(u, a).None? && SegmentError(u, b).None?
    ensures SegmentsValid(u, [a, b])
  {
  }

  /** Two plain, accepted segments joined by '/' form an accepted sub-path. */
  lemma PlainPairAccepted(u: CharData, a: seq<char>, b: seq<char>)
    requires AsciiConforming(u)
    requires |a| >= 2 && PlainAscii(a) && a[|a| - 1] != '.' && !IsReserved(u, a)
    requires b != [] && PlainAscii(b) && b[|b| - 1] != '.' && !IsReserved(u, b)
    ensures ValidateSubPath(u, a + "/" + b).Ok?
  {
    var s := a + "/" + b;
    assert s[0] == a[0] && s[1] == a[1] && s[|s| - 1] == b[|b| - 1];
    assert IsAscii(a[0]) && IsAscii(b[|b| - 1]);
    TrimNoSpaceAtEnds(u, s);
    SplitPair(a, b);
    PlainSegmentError(u, a);
    PlainSegmentError(u, b);
    ValidPair(u, a, b);
    assert !IsReservedPunct(a[0]) && !IsReservedPunct(a[1]);
    ValidateSubPathAccepts(u, s);
  }

  /** The test's "test~/as.txt": a tilde inside a name does not mean home. */
  lemma TildeInNameExample(u: CharData)
    requires AsciiConforming(u)
    ensures ValidateSubPath(u, "test~/as.txt").Ok?
  {
    assert "test~" + "/" + "as.txt" == "test~/as.txt";
    assert PlainAscii("test~") && PlainAscii("as.txt");
    NotReservedByLength(u, "test~");
    NotReservedByLength(u, "as.txt");
    PlainPairAccepted(u, "test~", "as.txt");
  }

  /** The test's "test/..txt": a name may start with dots. */
  lemma LeadingDotsExample(u: CharData)
    requires AsciiConforming(u)
    ensures ValidateSubPath(u, "test/..txt").Ok?
  {
    assert "test" + "/" + "..txt" == "test/..txt";
    assert PlainAscii("test") && PlainAscii("..txt");
    NotReservedByFirstChar(u, "test");
    NotReservedByLength(u, "..txt");
    PlainPairAccepted(u, "test", "..txt");
  }

  /** Segments joined by the separator `sep`. */
  function Joined(segs: seq<seq<char>>, sep: char): seq<char>
    requires segs != []
    decreases |segs|
  {
    if |segs| == 1 then segs[0] else segs[0] + [sep] + Joined(segs[1..], sep)
  }

  lemma JoinedPair(a: seq<char>, b: seq<char>, sep: char)
    ensures Joined([a, b], sep) == a + [sep] + b
  {
    assert [a, b][1..] == [b];
  }

  lemma JoinedTriple(a: seq<char>, b: seq<char>, c: seq<char>, sep: char)
    ensures Joined([a, b, c], sep) == a + [sep] + b + [sep] + c
  {
    assert [a, b, c][1..] == [b, c];
    JoinedPair(b, c, sep);
  }

  /** Printable ASCII chars other than the space. */
  predicate Printable(s: seq<char>) {
    forall i :: 0 <= i < |s| ==> 32 < s[i] as int < 127
  }

  /** Non-empty, separator-free segments of printable chars. */
  predicate PrintableSegments(segs: seq<seq<char>>) {
    forall k :: 0 <= k < |segs| ==> segs[k] != [] && NoSeparator(segs[k]) && Printable(segs[k])
  }

  /** Plain segments are printable and free of separators. */
  lemma PlainSegments(segs: seq<seq<char>>)
    requires forall k :: 0 <= k < |segs| ==> segs[k] != [] && PlainAscii(segs[k])
    ensures PrintableSegments(segs)
  {
  }

  /** The tail segments of printable segments are printable. */
  lemma PrintableTail(segs: seq<seq<char>>)
    requires segs != [] && PrintableSegments(segs)
    ensures PrintableSegments(segs[1..])
  {
    forall k | 0 <= k < |segs| - 1 ensures segs[1..][k] == segs[k + 1] { }
  }

  /** A name, a separator and a printable rest form a printable string. */
  lemma PrintableJoin(a: seq<char>, sep: char, rest: seq<char>)
    requires Printable(a) && Printable(rest) && IsSeparator(sep)
    ensures Printable(a + [sep] + rest)
  {
    var s := a + [sep] + rest;
    forall i | 0 <= i < |s| ensures 32 < s[i] as int < 127 {
      if i < |a| {
        assert s[i] == a[i];
      } else if i > |a| {
        assert s[i] == rest[i - |a| - 1];
      }
    }
  }

  /** Printable segments joined by a separator form a printable path that starts with the first segment. */
  lemma {:induction false} JoinedPrintable(segs: seq<seq<char>>, sep: char)
    requires segs != [] && IsSeparator(sep) && PrintableSegments(segs)
    ensures Printable(Joined(segs, sep))
    ensures segs[0] <= Joined(segs, sep)
    decreases |segs|
  {
    if |segs| > 1 {
      PrintableTail(segs);
      JoinedPrintable(segs[1..], sep);
      PrintableJoin(segs[0], sep, Joined(segs[1..], sep));
    }
  }

  /** Printable segments joined by a separator split back into those segments. */
  lemma {:induction false} JoinedSplit(segs: seq<seq<char>>, sep: char)
    requires segs != [] && IsSeparator(sep) && PrintableSegments(segs)
    ensures Split(Joined(segs, sep)) == segs
    decreases |segs|
  {
    if |segs| == 1 {
      SplitNoSeparator(segs[0]);
    } else {
      PrintableTail(segs);
      JoinedSplit(segs[1..], sep);
      SplitAfterPiece(segs[0], sep, Joined(segs[1..], sep));
      assert segs == [segs[0]] + segs[1..];
    }
  }

  /** A separator-free piece followed by a separator splits off as the first piece. */
  lemma SplitAfterPiece(a: seq<char>, sep: char, rest: seq<char>)
    requires NoSeparator(a) && IsSeparator(sep)
    ensures Split(a + [sep] + rest) == [a] + Split(rest)
  {
    var s := a + [sep] + rest;
    assert s[..|a|] == a && s[|a| + 1..] == rest;
    SplitAt(s, |a|);
  }

  /**
   * A path of printable segments is trimmed to itself and never rooted, so it is
   * rejected as Home when it starts with "~/" and otherwise checked segment by segment.
   */
  lemma PrintablePath(u: CharData, segs: seq<seq<char>>, sep: char)
    requires AsciiConforming(u) && segs != [] && IsSeparator(sep) && PrintableSegments(segs)
    ensures ValidateSubPath(u, Joined(segs, sep)) ==
      if StartsAtHome(Joined(segs, sep)) then Err(Home)
      else match FirstSegmentError(u, segs) case Some(e) => Err(e) case None => Ok(())
  {
    var s := Joined(segs, sep);
    JoinedSplit(segs, sep);
    JoinedPrintable(segs, sep);
    assert s[0] == segs[0][0];
    assert IsAscii(s[0]) && IsAscii(s[|s| - 1]);
    TrimNoSpaceAtEnds(u, s);
  }

  /** The test's "test/~": a tilde segment after a name does not mean home. */
  lemma TrailingTildeExample(u: CharData)
    requires AsciiConforming(u)
    ensures ValidateSubPath(u, "test/~").Ok?
  {
    assert "test" + "/" + "~" == "test/~";
    assert PlainAscii("test") && PlainAscii("~");
    NotReservedByFirstChar(u, "test");
    NotReservedByLength(u, "~");
    PlainPairAccepted(u, "test", "~");
  }

  /** The test's "~t~/as.txt": tildes inside a first name do not mean home. */
  lemma TildesInNameExample(u: CharData)
    requires AsciiConforming(u)
    ensures ValidateSubPath(u, "~t~/as.txt").Ok?
  {
    assert "~t~" + "/" + "as.txt" == "~t~/as.txt";
    assert PlainAscii("~t~") && PlainAscii("as.txt");
    NotReservedByFirstChar(u, "~t~");
    NotReservedByLength(u, "as.txt");
    PlainPairAccepted(u, "~t~", "as.txt");
  }

  /** The test's "../": its first piece ".." ends in a dot. */
  lemma DotDotSegmentExample(u: CharData)
    requires AsciiConforming(u)
    ensures ValidateSubPath(u, "../") == Err(EndsWithDot)
  {
    var s := "../";
    TrimNoSpaceAtEnds(u, s);
    SplitAt(s, 2);
    assert s[..2] == ".." && s[3..] == [];
    assert Split(s) == ["..", []];
    assert PlainAscii("..");
    PlainSegmentError(u, "..");
    HeadSegmentError(u, ["..", []]);
    ValidateSubPathAccepts(u, s);
  }

  /** A plain segment that neither ends in a dot nor is reserved, followed by one that ends in a dot. */
  lemma DotAfterName(u: CharData, a: seq<char>, d: seq<char>)
    requires AsciiConforming(u)
    requires a != [] && PlainAscii(a) && a[|a| - 1] != '.' && !IsReserved(u, a)
    requires d != [] && PlainAscii(d) && d[|d| - 1] == '.'
    ensures SegmentError(u, a) == None && SegmentError(u, d) == Some(EndsWithDot)
  {
    PlainSegmentError(u, a);
    PlainSegmentError(u, d);
  }

  /** A first segment ending in a dot is the error of the path, whatever plain segment follows. */
  lemma FirstDotSegment(u: CharData, d: seq<char>, b: seq<char>)
    requires AsciiConforming(u)
    requires d != [] && PlainAscii(d) && d[|d| - 1] == '.' && d[0] != '~'
    requires b != [] && PlainAscii(b)
    ensures ValidateSubPath(u, d + "/" + b) == Err(EndsWithDot)
  {
    var segs := [d, b];
    JoinedPair(d, b, '/');
    PlainSegments(segs);
    PrintablePath(u, segs, '/');
    PlainSegmentError(u, d);
    HeadSegmentError(u, segs);
  }

  /** After a valid plain name, a segment ending in a dot is the error of the path. */
  lemma SecondDotSegment(u: CharData, a: seq<char>, d: seq<char>)
    requires AsciiConforming(u)
    requires |a| >= 2 && PlainAscii(a) && a[|a| - 1] != '.' && !IsReserved(u, a)
    requires d != [] && PlainAscii(d) && d[|d| - 1] == '.'
    ensures ValidateSubPath(u, a + "/" + d) == Err(EndsWithDot)
  {
    var segs := [a, d];
    JoinedPair(a, d, '/');
    var s := a + "/" + d;
    assert s[0] == a[0] && s[1] == a[1];
    assert !IsReservedPunct(a[1]);
    PlainSegments(segs);
    PrintablePath(u, segs, '/');
    DotAfterName(u, a, d);
    SegmentErrorAt(u, segs, 1);
  }

  /** Between a valid plain name and any plain segment, a segment ending in a dot is the error of the path. */
  lemma MiddleDotSegment(u: CharData, a: seq<char>, d: seq<char>, b: seq<char>)
    requires AsciiConforming(u)
    requires |a| >= 2 && PlainAscii(a) && a[|a| - 1] != '.' && !IsReserved(u, a)
    requires d != [] && PlainAscii(d) && d[|d| - 1] == '.'
    requires b != [] && PlainAscii(b)
    ensures ValidateSubPath(u, a + "/" + d + "/" + b) == Err(EndsWithDot)
  {
    var segs := [a, d, b];
    JoinedTriple(a, d, b, '/');
    var s := a + "/" + d + "/" + b;
    assert s[0] == a[0] && s[1] == a[1];
    assert !IsReservedPunct(a[1]);
    PlainSegments(segs);
    PrintablePath(u, segs, '/');
    DotAfterName(u, a, d);
    SegmentErrorAt(u, segs, 1);
  }

  lemma OneDotNamePlain()
    ensures PlainAscii("do_not_have_1_dots_in_path")
  {
  }

  lemma TwoDotsNamePlain()
    ensures PlainAscii("do_not_have_2_dots_in_path")
  {
  }

  lemma DotEndedDirNamePlain()
    ensures PlainAscii("do_not_end_with_dot_in_path.")
  {
  }

  lemma DotEndedFileNamePlain()
    ensures PlainAscii("do_not_end_with.")
  {
  }

  /** The test's "do_not_have_1_dots_in_path/./test.txt": a "." segment is rejected. */
  lemma DotInPathExample(u: CharData)
    requires AsciiConforming(u)
    ensures ValidateSubPath(u, "do_not_have_1_dots_in_path/./test.txt") == Err(EndsWithDot)
  {
    var a, d, b := "do_not_have_1_dots_in_path", ".", "test.txt";
    assert a + "/" + d + "/" + b == "do_not_have_1_dots_in_path/./test.txt";
    OneDotNamePlain();
    assert PlainAscii(d) && PlainAscii(b);
    NotReservedByLength(u, a);
    MiddleDotSegment(u, a, d, b);
  }

  /** The test's "do_not_have_2_dots_in_path/../test.txt": a ".." segment is rejected. */
  lemma DotDotInPathExample(u: CharData)
    requires AsciiConforming(u)
    ensures ValidateSubPath(u, "do_not_have_2_dots_in_path/../test.txt") == Err(EndsWithDot)
  {
    var a, d, b := "do_not_have_2_dots_in_path", "..", "test.txt";
    assert a + "/" + d + "/" + b == "do_not_have_2_dots_in_path/../test.txt";
    TwoDotsNamePlain();
    assert PlainAscii(d) && PlainAscii(b);
    NotReservedByLength(u, a);
    MiddleDotSegment(u, a, d, b);
  }

  /** The test's "do_not_end_with_dot_in_path./text.txt": a directory ending in a dot is rejected. */
  lemma DotEndedDirExample(u: CharData)
    requires AsciiConforming(u)
    ensures ValidateSubPath(u, "do_not_end_with_dot_in_path./text.txt") == Err(EndsWithDot)
  {
    var d, b := "do_not_end_with_dot_in_path.", "text.txt";
    assert d + "/" + b == "do_not_end_with_dot_in_path./text.txt";
    DotEndedDirNamePlain();
    assert PlainAscii(b);
    FirstDotSegment(u, d, b);
  }

  /** The test's "path/do_not_end_with.": a file ending in a dot is rejected. */
  lemma DotEndedFileExample(u: CharData)
    requires AsciiConforming(u)
    ensures ValidateSubPath(u, "path/do_not_end_with.") == Err(EndsWithDot)
  {
    var a, d := "path", "do_not_end_with.";
    assert a + "/" + d == "path/do_not_end_with.";
    DotEndedFileNamePlain();
    assert PlainAscii(a);
    NotReservedFourChars(u, a);
    SecondDotSegment(u, a, d);
  }

  /** The documentation's accepted "sub_dir/file.txt". */
  lemma DocAcceptedExample(u: CharData)
    requires AsciiConforming(u)
    ensures ValidateSubPath(u, "sub_dir/file.txt").Ok?
  {
    assert "sub_dir" + "/" + "file.txt" == "sub_dir/file.txt";
    assert PlainAscii("sub_dir") && PlainAscii("file.txt");
    NotReservedByLength(u, "sub_dir");
    NotReservedByLength(u, "file.txt");
    PlainPairAccepted(u, "sub_dir", "file.txt");
  }

  /** A path whose first char is a separator and whose last char is printable ASCII is rejected as Root. */
  lemma RootedPath(u: CharData, s: seq<char>)
    requires AsciiConforming(u) && s != [] && IsSeparator(s[0]) && 32 < s[|s| - 1] as int < 127
    ensures ValidateSubPath(u, s) == Err(Root)
  {
    assert IsAscii(s[0]) && IsAscii(s[|s| - 1]);
    TrimNoSpaceAtEnds(u, s);
  }

  /** A path that starts with "~/" and whose last char is printable ASCII is rejected as Home. */
  lemma HomePath(u: CharData, s: seq<char>)
    requires AsciiConforming(u) && |s| >= 2 && s[0] == '~' && s[1] == '/' && 32 < s[|s| - 1] as int < 127
    ensures ValidateSubPath(u, s) == Err(Home)
  {
    assert IsAscii(s[0]) && IsAscii(s[|s| - 1]);
    TrimNoSpaceAtEnds(u, s);
  }

  /** The documentation's "/file.txt": rooted. */
  lemma DocRootExample(u: CharData)
    requires AsciiConforming(u)
    ensures ValidateSubPath(u, "/file.txt") == Err(Root)
  {
    RootedPath(u, "/file.txt");
  }

  /** The documentation's "~/file.txt": at home. */
  lemma DocHomeExample(u: CharData)
    requires AsciiConforming(u)
    ensures ValidateSubPath(u, "~/file.txt") == Err(Home)
  {
    HomePath(u, "~/file.txt");
  }

  /** The documentation's "\\\\test\\file.txt": a network path starts with a separator. */
  lemma DocNetworkExample(u: CharData)
    requires AsciiConforming(u)
    ensures ValidateSubPath(u, "\\\\test\\file.txt") == Err(Root)
  {
    RootedPath(u, "\\\\test\\file.txt");
  }

  /** The documentation's "./file.txt": a "." segment is rejected. */
  lemma DocDotExample(u: CharData)
    requires AsciiConforming(u)
    ensures ValidateSubPath(u, "./file.txt") == Err(EndsWithDot)
  {
    assert "." + "/" + "file.txt" == "./file.txt";
    assert PlainAscii(".") && PlainAscii("file.txt");
    FirstDotSegment(u, ".", "file.txt");
  }

  /** The documentation's "../file.txt": a ".." segment is rejected. */
  lemma DocDotDotExample(u: CharData)
    requires AsciiConforming(u)
    ensures ValidateSubPath(u, "../file.txt") == Err(EndsWithDot)
  {
    assert ".." + "/" + "file.txt" == "../file.txt";
    assert PlainAscii("..") && PlainAscii("file.txt");
    FirstDotSegment(u, "..", "file.txt");
  }

  /** A drive prefix: a letter and a colon, then a separator, is rejected for the colon. */
  lemma DrivePath(u: CharData, x: char, sep: char, b: seq<char>)
    requires AsciiConforming(u) && (IsAsciiLower(x) || IsAsciiUpper(x)) && IsSeparator(sep)
    requires b != [] && PlainAscii(b)
    ensures ValidateSubPath(u, [x, ':'] + [sep] + b) == Err(InvalidChar(':'))
  {
    var a := [x, ':'];
    var segs := [a, b];
    JoinedPair(a, b, sep);
    assert PrintableSegments(segs);
    PrintablePath(u, segs, sep);
    DriveSegment(u, x);
    HeadSegmentError(u, segs);
  }

  /** A letter followed by a colon is rejected for the colon. */
  lemma DriveSegment(u: CharData, x: char)
    requires AsciiConforming(u) && (IsAsciiLower(x) || IsAsciiUpper(x))
    ensures SegmentError(u, [x, ':']) == Some(InvalidChar(':'))
  {
    var a := [x, ':'];
    assert IsAscii(x) && IsAscii(':');
    TrimNoSpaceAtEnds(u, a);
    assert !IsInvalidFilenameChar(u, x);
    assert FirstInvalid(u, a) == 1;
  }

  /** The documentation's "c:\\file.txt": the drive colon is an invalid char of the first segment. */
  lemma DocDriveExample(u: CharData)
    requires AsciiConforming(u)
    ensures ValidateSubPath(u, "c:\\file.txt") == Err(InvalidChar(':'))
  {
    assert ['c', ':'] + ['\\'] + "file.txt" == "c:\\file.txt";
    assert PlainAscii("file.txt");
    DrivePath(u, 'c', '\\', "file.txt");
  }

  /** The per-char check runs before the reserved-name check: "CON\n" is an invalid char, not a reserved name. */
  lemma CheckOrderExample(u: CharData)
    requires AsciiConforming(u)
    ensures ValidateFilename(u, "CON\n") == Err(InvalidChar('\n'))
  {
    assert IsAscii('C') && IsAscii('O') && IsAscii('N') && IsAscii('\n');
    assert FirstInvalid(u, "CON\n") == 3;
  }
}
