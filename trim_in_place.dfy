/**
 * `TrimInPlace`: strings that trim themselves through a mutable reference. Each
 * implementation trims the current content and overwrites it only when trimming
 * changed its byte length.
 */
module TrimInPlace {
  import opened Wrappers
  import opened Unicode
  import Utf8
  import opened Trimming
  import opened Cows

  /** An owned string buffer: `String`, and `Box<str>`, which behaves the same way here. */
  class StrBuf {
    var s: seq<char>

    constructor(s0: seq<char>)
      ensures s == s0
    {
      s := s0;
    }

    /**
     * After the call the buffer holds exactly the trimmed original, so a second call
     * leaves it as it is; an untrimmed buffer keeps its content untouched.
     */
    method TrimInPlace(u: CharData) returns (r: StrBuf)
      modifies this
      ensures s == Trim(u, old(s))
      ensures Trim(u, s) == s
      ensures Utf8.Length(s) == Utf8.Length(old(s)) ==> s == old(s)
      ensures r == this
    {
      var t := Trim(u, s);
      TrimSameLengthIffUnchanged(u, s);
      TrimIdempotent(u, s);
      if Utf8.Length(t) != Utf8.Length(s) {
        s := t;
      }
      r := this;
    }
  }

  /** A `Cow<str>` held in a mutable place. */
  class CowBuf {
    var c: Cow

    constructor(c0: Cow)
      ensures c == c0
    {
      c := c0;
    }

    /**
     * The content becomes the trimmed original. A value with nothing to trim is left
     * alone, so a borrowed value stays borrowed; otherwise it becomes an owned copy.
     */
    method TrimInPlace(u: CharData) returns (r: CowBuf)
      modifies this
      ensures c.s == Trim(u, old(c.s))
      ensures Trim(u, old(c.s)) == old(c.s) ==> c == old(c)
      ensures Trim(u, old(c.s)) != old(c.s) ==> c == Owned(Trim(u, old(c.s)))
      ensures r == this
    {
      var t := Trim(u, c.s);
      TrimSameLengthIffUnchanged(u, c.s);
      if Utf8.Length(t) != Utf8.Length(c.s) {
        c := Owned(t);
      }
      r := this;
    }
  }

  /** An `Option<String>` held in a mutable place. */
  class OptionBuf {
    var opt: Option<StrBuf>

    constructor(o: Option<StrBuf>)
      ensures opt == o
    {
      opt := o;
    }

    /** The objects a call may change: the wrapped buffer, if there is one. */
    function Target(): set<object>
      reads this
    {
      if opt.Some? then {opt.value} else {}
    }

    /** None stays None; a wrapped buffer is trimmed in place and stays wrapped. */
    method TrimInPlace(u: CharData) returns (r: OptionBuf)
      modifies Target()
      ensures opt == old(opt)
      ensures opt.Some? ==> opt.value.s == Trim(u, old(opt.value.s))
      ensures r == this
    {
      if opt.Some? {
        var _ := opt.value.TrimInPlace(u);
      }
      r := this;
    }
  }

  /** The documented example: `" test "` becomes `"test"`. */
  method Example(u: CharData) returns (out: seq<char>)
    requires AsciiConforming(u)
    ensures out == "test"
  {
    var b := new StrBuf(" test ");
    assert " test " == " " + "test" + " ";
    assert u.isWhitespace(' ') && !u.isWhitespace('t');
    TrimSurrounded(u, " ", "test", " ");
    var _ := b.TrimInPlace(u);
    out := b.s;
  }
}
