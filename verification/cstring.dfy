/**
 C-string reading over sequences: a C string stored in a buffer is the part of
 the buffer before its first terminator (NUL). `UpTo` is stated for any
 element type; the model applies it to byte buffers.
 */
module CString {

  /** One byte of a buffer. */
  type byte = b: int | 0 <= b < 256

  const Nul: byte := 0
  /** The ASCII code of the character '1'. */
  const AsciiOne: byte := 0x31

  /** The longest prefix of `s` that does not contain `stop`. */
  function UpTo<T(==)>(s: seq<T>, stop: T): (r: seq<T>)
    ensures |r| <= |s|
    ensures r == s[..|r|]
    ensures stop !in r
    ensures |r| < |s| ==> s[|r|] == stop
  {
    if |s| == 0 then []
    else if s[0] == stop then []
    else [s[0]] + UpTo(s[1..], stop)
  }

  /** The C string held by a byte buffer (what `strcmp` and `%s` read). */
  function CStr(buf: seq<byte>): seq<byte>
  {
    UpTo(buf, Nul)
  }

  /** A buffer holding a terminated C string: reading it never runs off the end. */
  predicate Terminated(buf: seq<byte>)
  {
    Nul in buf
  }

  /**
   The three defining facts of `UpTo` determine it: a prefix of `s` free of
   `stop` that is either all of `s` or followed by `stop` is exactly `UpTo(s, stop)`.
   */
  lemma {:induction false} UpToCharacterization<T>(s: seq<T>, stop: T, p: seq<T>)
    ensures UpTo(s, stop) == p <==>
            (|p| <= |s| && p == s[..|p|] && stop !in p && (|p| == |s| || s[|p|] == stop))
  {
    var r := UpTo(s, stop);
    if |p| <= |s| && p == s[..|p|] && stop !in p && (|p| == |s| || s[|p|] == stop) {
      assert |r| == |p|;
    }
  }

  /** Text followed by a terminator reads back as the text, whatever comes after. */
  lemma UpToTerminated<T>(a: seq<T>, stop: T, rest: seq<T>)
    requires stop !in a
    ensures UpTo(a + [stop] + rest, stop) == a
  {
    var s := a + [stop] + rest;
    assert s[..|a|] == a;
    UpToCharacterization(s, stop, a);
  }

  /** Text without a terminator reads back whole. */
  lemma UpToNoStop<T>(a: seq<T>, stop: T)
    requires stop !in a
    ensures UpTo(a, stop) == a
  {
    assert a[..|a|] == a;
    UpToCharacterization(a, stop, a);
  }

  /**
   `strcmp(buf, "1") == 0` at byte level: the first byte is '1' and the
   second (when there is one) is the terminator.
   */
  lemma CStrIsOne(buf: seq<byte>)
    ensures CStr(buf) == [AsciiOne] <==>
            (|buf| >= 1 && buf[0] == AsciiOne && (|buf| == 1 || buf[1] == Nul))
  {
    UpToCharacterization(buf, Nul, [AsciiOne]);
  }
}
