/** C strings as the host reads them, and the conversion of Rust text into a
    C string that the adapter performs before copying it into a host buffer
    (src/lib.rs:117-128). */
module CStrings {
  import opened Wrappers

  /** One byte of memory (a `c_char` or a byte of a Rust `&str`). */
  newtype byte = b: int | 0 <= b < 256

  const NUL: byte := 0

  /** A well-formed C string: exactly one NUL, as its last byte. */
  predicate Terminated(c: seq<byte>) {
    |c| > 0 && c[|c| - 1] == NUL && NUL !in c[..|c| - 1]
  }

  /** The text a C reader finds in a buffer: every byte before the first NUL. */
  function ReadCString(buf: seq<byte>): (r: seq<byte>)
    requires NUL in buf
    ensures |r| < |buf| && r == buf[..|r|] && buf[|r|] == NUL
    ensures NUL !in r
  {
    if buf[0] == NUL then [] else
      assert NUL in buf[1..] by { assert buf == [buf[0]] + buf[1..]; }
      [buf[0]] + ReadCString(buf[1..])
  }

  /** Bytes free of NUL in front of a buffer are read back unchanged. */
  lemma {:induction false} ReadCStringAppend(a: seq<byte>, b: seq<byte>)
    requires NUL !in a && NUL in b
    ensures NUL in a + b && ReadCString(a + b) == a + ReadCString(b)
  {
    if a == [] {
      assert a + b == b;
    } else {
      assert (a + b)[0] == a[0];
      assert (a + b)[1..] == a[1..] + b;
      ReadCStringAppend(a[1..], b);
    }
  }

  /** A C reader stops at the terminator of a well-formed C string, whatever
      the buffer holds after it. */
  lemma ReadTerminated(c: seq<byte>, rest: seq<byte>)
    requires Terminated(c)
    ensures NUL in c + rest && ReadCString(c + rest) == c[..|c| - 1]
  {
    var text := c[..|c| - 1];
    assert c + rest == text + ([NUL] + rest);
    ReadCStringAppend(text, [NUL] + rest);
  }

  /** `ffi::CString::new`: fails exactly when the text holds a NUL byte;
      otherwise a C string that reads back as the text. */
  function CStringNew(text: seq<byte>): (r: Option<seq<byte>>)
    ensures r.None? <==> NUL in text
    ensures r.Some? ==> Terminated(r.value) && ReadCString(r.value) == text
  {
    if NUL in text then None else
      assert (text + [NUL])[..|text|] == text;
      ReadTerminated(text + [NUL], []);
      assert text + [NUL] + [] == text + [NUL];
      Some(text + [NUL])
  }

  /** The nine bytes of the Rust byte-string literal `b"<invalid>"`, which has
      no terminating NUL. */
  function InvalidLiteral(): (r: seq<byte>)
    ensures |r| == 9 && NUL !in r
  {
    // '<'   'i'   'n'   'v'   'a'   'l'   'i'   'd'   '>'
    [0x3C, 0x69, 0x6E, 0x76, 0x61, 0x6C, 0x69, 0x64, 0x3E]
  }

  /** As written, `strcpy` is handed the unterminated literal, so what it
      copies runs on into whatever memory follows the literal, up to the
      next NUL there. */
  lemma AsWrittenFallbackReadsOn(following: seq<byte>)
    requires NUL in following
    ensures !Terminated(InvalidLiteral())
    ensures ReadCString(InvalidLiteral() + following)
         == InvalidLiteral() + ReadCString(following)
  {
    ReadCStringAppend(InvalidLiteral(), following);
  }

  /** The evidently intended fallback: `"<invalid>"` followed by a NUL. */
  function Fallback(): (r: seq<byte>)
    ensures Terminated(r) && ReadCString(r) == InvalidLiteral()
  {
    var c := InvalidLiteral() + [NUL];
    assert c[..|c| - 1] == InvalidLiteral();
    ReadTerminated(c, []);
    assert c + [] == c;
    c
  }

  /** What the adapter is evidently intended to copy into a host buffer for
      one text field: the C string of the text, or, when the text holds a
      NUL, the terminated fallback. As written the fallback is the
      unterminated InvalidLiteral, and strcpy copies on past it (see
      AsWrittenFallbackReadsOn). */
  function Marshal(text: seq<byte>): (r: seq<byte>)
    ensures Terminated(r)
    ensures NUL !in text ==> r[..|r| - 1] == text
    ensures NUL in text ==> r == Fallback()
  {
    match CStringNew(text)
    case Some(c) =>
      ReadTerminated(c, []);
      assert c + [] == c;
      c
    case None => Fallback()
  }

  /** The text the host finds in a buffer after marshaling `text`. */
  function HostText(text: seq<byte>): (r: seq<byte>)
    ensures NUL !in r
    ensures NUL !in text <==> r == text
  {
    if NUL in text then InvalidLiteral() else text
  }

  /** Round trip and fallback law together: a host buffer that starts with
      the marshaled field reads back as the field itself when the field has
      no NUL, and as `<invalid>` (never a truncated copy) when it has one. */
  lemma MarshalRead(text: seq<byte>, rest: seq<byte>)
    ensures NUL in Marshal(text) + rest
    ensures ReadCString(Marshal(text) + rest) == HostText(text)
    ensures NUL !in text ==> ReadCString(Marshal(text) + rest) == text
    ensures NUL in text ==> ReadCString(Marshal(text) + rest) == InvalidLiteral()
  {
    ReadTerminated(Marshal(text), rest);
    if NUL in text {
      assert Fallback()[..|Fallback()| - 1] == InvalidLiteral();
    }
  }

  /** Whether `after` is `before` with its first |c| bytes overwritten by c. */
  predicate CopiedOver(after: seq<byte>, before: seq<byte>, c: seq<byte>) {
    |after| == |before| && |c| <= |after| &&
    after[..|c|] == c && after[|c|..] == before[|c|..]
  }

  /** A host buffer holding a marshaled field reads back as HostText. */
  lemma CopiedOverReads(after: seq<byte>, before: seq<byte>, text: seq<byte>)
    requires CopiedOver(after, before, Marshal(text))
    ensures NUL in after && ReadCString(after) == HostText(text)
  {
    var m := Marshal(text);
    assert after == m + after[|m|..];
    MarshalRead(text, after[|m|..]);
  }

  /** `libc::strcpy(dst, src)` for a well-formed C string `src` that fits:
      the bytes of src, terminator included, replace the front of dst. */
  method StrCpy(dst: array<byte>, src: seq<byte>)
    requires Terminated(src) && |src| <= dst.Length
    modifies dst
    ensures CopiedOver(dst[..], old(dst[..]), src)
  {
    forall i | 0 <= i < |src| {
      dst[i] := src[i];
    }
  }
}
