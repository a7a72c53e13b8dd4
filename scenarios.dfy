/** The descriptors of the crate's own test plugin (src/lib.rs:192-198) and
    of a name with an embedded NUL, run through the marshaling rule. */
module Scenarios {
  import opened CStrings
  import opened PluginContract

  /** The UTF-8 bytes of an ASCII string: one byte per character. */
  function Ascii(s: string): (r: seq<byte>)
    requires forall i :: 0 <= i < |s| ==> s[i] as int < 128
    ensures |r| == |s|
  {
    seq(|s|, i requires 0 <= i < |s| => s[i] as int as byte)
  }

  /** A NUL byte in the bytes is a NUL character in the string. */
  lemma AsciiNul(s: string)
    requires forall i :: 0 <= i < |s| ==> s[i] as int < 128
    ensures NUL in Ascii(s) <==> '\0' in s
  {
    if NUL in Ascii(s) {
      var i :| 0 <= i < |s| && Ascii(s)[i] == NUL;
      assert s[i] == '\0';
    }
    if '\0' in s {
      var i :| 0 <= i < |s| && s[i] == '\0';
      assert Ascii(s)[i] == NUL;
    }
  }

  /** The fallback literal's bytes are those of `<invalid>`. */
  lemma InvalidLiteralText()
    ensures InvalidLiteral() == Ascii("<invalid>")
  {
  }

  function TestPluginInfo(): PluginInfo {
    PluginInfo(Ascii("Test Plugin"), Ascii("org.samcrow.rustplugin.test"), Ascii("A plugin written in Rust"))
  }

  /** ASCII text without a NUL reaches the host unchanged. */
  lemma AsciiReadsBack(s: string)
    requires forall i :: 0 <= i < |s| ==> s[i] as int < 128
    requires '\0' !in s
    ensures HostText(Ascii(s)) == Ascii(s)
  {
    AsciiNul(s);
  }

  /** Every field of the test plugin's descriptor reaches the host unchanged. */
  lemma TestPluginReadsBack()
    ensures HostText(TestPluginInfo().name) == TestPluginInfo().name
    ensures HostText(TestPluginInfo().signature) == TestPluginInfo().signature
    ensures HostText(TestPluginInfo().description) == TestPluginInfo().description
  {
    AsciiReadsBack("Test Plugin");
    AsciiReadsBack("org.samcrow.rustplugin.test");
    AsciiReadsBack("A plugin written in Rust");
  }

  /** A name with an embedded NUL is marshaled as the fallback, and the host
      reads `<invalid>` rather than `Bad`. */
  lemma BadNameFallsBack()
    ensures Marshal(Ascii("Bad\0Name")) == Fallback()
    ensures HostText(Ascii("Bad\0Name")) == InvalidLiteral()
  {
    AsciiNul("Bad\0Name");
  }
}
