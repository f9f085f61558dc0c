/** The byte constants, spelled. */
module Spelling {
  import opened Bytes
  import MainLoop
  import ResetCheck
  import Scanner
  import ServerSpec
  import Symbolize

  predicate Ascii(s: string) {
    forall i :: 0 <= i < |s| ==> s[i] as int < 128
  }

  /** The bytes of a C string literal. */
  function Text(s: string): seq<byte>
    requires Ascii(s)
  {
    seq(|s|, i requires 0 <= i < |s| => s[i] as int)
  }

  lemma ConsoleField()
    ensures Scanner.STATUS_FIELD == Text("status=")
  {
  }

  lemma PingFile()
    ensures ServerSpec.PING == Text("ps2client.ping")
  {
  }

  lemma LogHeaders()
    ensures Symbolize.EE_HEADER == Text("EE Exception handler:")
    ensures Symbolize.IOP_HEADER == Text("IOP Exception handler:")
  {
  }

  lemma LogFields()
    ensures Symbolize.EPC == Text("EPC ")
    ensures Symbolize.MODULE_NAME == Text("Module Name \"")
    ensures Symbolize.RELATIVE == Text("Relative")
  {
  }

  /** What the program prints for a symbol. */
  lemma AnnotationsSpelled(name: seq<byte>, symbol: seq<byte>)
    ensures Symbolize.AnnotationText([], symbol) == Text("  [EE symbol] ") + symbol + [10]
    ensures name != [] ==> Symbolize.AnnotationText(name, symbol) == Text("  [IOP ") + name + Text(" symbol] ") + symbol + [10]
  {
    AnnotationLabels();
  }

  lemma ExitStatuses()
    ensures MainLoop.EXIT_OK == ResetCheck.EXIT_OK == 0 && MainLoop.EXIT_CONNLOST == 74
    ensures MainLoop.EXIT_TIMEOUT == ResetCheck.EXIT_TIMEOUT == 124
    ensures ResetCheck.EXIT_USAGE == 64 && ResetCheck.EXIT_NOCONNECT == 69
  {
  }

  lemma AnnotationLabels()
    ensures Symbolize.EE_LABEL == Text("  [EE symbol] ")
    ensures Symbolize.IOP_LABEL == Text("  [IOP ")
    ensures Symbolize.IOP_LABEL_END == Text(" symbol] ")
  {
  }
}
