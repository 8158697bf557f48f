/** The strings the extension writes to its output channel and shows in
    error pop-ups: tagged info lines, error logs cut down to the part the
    formatter itself printed, and the "ktlint is missing" guidance. */
module Output {
  import opened Wrappers
  import opened Strings
  import opened Platform

  const InfoTag := "[INFO]:"
  const ErrorTag := "[ERROR]:"

  /** The token with which ktlint starts each diagnostic about standard input. */
  const StdinMarker := "<stdin>"

  /** Shown when there is no error log at all (spelled as the extension spells it). */
  const UnknownError := "Unkown error"

  /** The guidance on Windows, where ktlint is run from a jar file (the
      pieces only keep each literal short enough for the solver). */
  const JarMissingMessage := Jar1 + Jar2 + Jar3 + Jar4 + Jar5
  const Jar1 := "You don't have ktlint in your project "
  const Jar2 := "root or your ktlintPath is setup "
  const Jar3 := "incorreclty. Go to https://github.com/"
  const Jar4 := "pinterest/ktlint/releases to download "
  const Jar5 := "latest jar"

  /** The guidance on every other platform, where ktlint is an installed command. */
  const InstallMessage := Install1 + Install2 + Install3 + Install4
  const Install1 := "You don't have ktlint installed, go to "
  const Install2 := "https://github.com/pinterest/ktlint"
  const Install3 := "#installation and follow the "
  const Install4 := "instructions for your OS"

  /** What one `showError` call produces: the text of the error pop-up and
      the line appended to the output channel (which is then revealed). */
  datatype ErrorNotice = ErrorNotice(popup: string, channelLine: string)

  /** `relevantInfo` in `showError`: for a missing or empty log a fixed
      text; otherwise the log from the first `<stdin>` on, or the whole log
      when the marker is absent (`indexOf` gives -1 and `substring(-1)`
      keeps everything). */
  function RelevantInfo(errorLog: Option<string>): (r: string)
    ensures errorLog.None? || errorLog == Some("") ==> r == UnknownError
    ensures errorLog.Some? && errorLog.value != "" ==>
      |r| <= |errorLog.value| && r == errorLog.value[|errorLog.value| - |r|..]
    ensures errorLog.Some? && errorLog.value != "" && Contains(errorLog.value, StdinMarker) ==>
      StartsWith(r, StdinMarker) &&
      forall j :: 0 <= j < |errorLog.value| - |r| ==> !StartsWith(errorLog.value[j..], StdinMarker)
    ensures errorLog.Some? && errorLog.value != "" && !Contains(errorLog.value, StdinMarker) ==>
      r == errorLog.value
  {
    match errorLog
    case None => UnknownError
    case Some(log) =>
      if log == "" then UnknownError
      else Substring(log, IndexOf(log, StdinMarker))
  }

  /** `showError`: the pop-up and the channel line carry the same text, the
      error tag followed by the relevant part of the log. */
  function ShowError(errorLog: Option<string>): (n: ErrorNotice)
    ensures n.popup == n.channelLine
    ensures StartsWith(n.channelLine, ErrorTag + " ")
    ensures n.channelLine[|ErrorTag| + 1..] == RelevantInfo(errorLog)
  {
    var line := ErrorTag + " " + RelevantInfo(errorLog);
    ErrorNotice(line, line)
  }

  /** `showInfo`: the line appended is the info tag, a space and the text,
      which can be read back after the tag. */
  function ShowInfo(infoLog: string): (line: string)
    ensures StartsWith(line, InfoTag + " ")
    ensures line[|InfoTag| + 1..] == infoLog
  {
    InfoTag + " " + infoLog
  }

  /** The guidance text `noKtlintError` passes on, chosen by platform; it
      never contains the `<stdin>` marker. */
  function NoKtlintMessage(platform: string): (m: string)
    ensures platform == Win32 <==> m == JarMissingMessage
    ensures platform != Win32 <==> m == InstallMessage
    ensures !Contains(m, StdinMarker)
  {
    GuidanceHasNoMarker();
    PlatformSelect(platform, JarMissingMessage, InstallMessage)
  }

  /** Both guidance texts are free of the `<stdin>` marker. */
  lemma GuidanceHasNoMarker()
    ensures !Contains(JarMissingMessage, StdinMarker)
    ensures !Contains(InstallMessage, StdinMarker)
  {
    JarPiecesHaveNoAngle();
    InstallPiecesHaveNoAngle();
    NoAngleInConcat(Jar1, Jar2);
    NoAngleInConcat(Jar1 + Jar2, Jar3);
    NoAngleInConcat(Jar1 + Jar2 + Jar3, Jar4);
    NoAngleInConcat(Jar1 + Jar2 + Jar3 + Jar4, Jar5);
    NoAngleInConcat(Install1, Install2);
    NoAngleInConcat(Install1 + Install2, Install3);
    NoAngleInConcat(Install1 + Install2 + Install3, Install4);
    NoOpeningAngleNoMarker(JarMissingMessage);
    NoOpeningAngleNoMarker(InstallMessage);
  }

  lemma JarPiecesHaveNoAngle()
    ensures '<' !in Jar1 && '<' !in Jar2 && '<' !in Jar3 && '<' !in Jar4 && '<' !in Jar5
  {
    NoAngleInPiece(Jar1);
    NoAngleInPiece(Jar2);
    NoAngleInPiece(Jar3);
    NoAngleInPiece(Jar4);
    NoAngleInPiece(Jar5);
  }

  lemma InstallPiecesHaveNoAngle()
    ensures '<' !in Install1 && '<' !in Install2 && '<' !in Install3 && '<' !in Install4
  {
    NoAngleInPiece(Install1);
    NoAngleInPiece(Install2);
    NoAngleInPiece(Install3);
    NoAngleInPiece(Install4);
  }

  /** Checked one character at a time, so that the solver never unfolds a
      whole literal at once. */
  lemma NoAngleInPiece(s: string)
    requires forall i :: 0 <= i < |s| ==> s[i] != '<'
    ensures '<' !in s
  {
  }

  lemma NoAngleInConcat(a: string, b: string)
    requires '<' !in a && '<' !in b
    ensures '<' !in a + b
  {
  }

  /** Text without a `<` cannot contain the marker. */
  lemma {:induction false} NoOpeningAngleNoMarker(s: string)
    requires '<' !in s
    ensures !Contains(s, StdinMarker)
  {
    forall i | 0 <= i <= |s|
      ensures !StartsWith(s[i..], StdinMarker)
    {
      if i < |s| {
        assert s[i..][0] == s[i];
      }
    }
  }

  /** `noKtlintError`: the guidance reaches the user untrimmed, behind the error tag. */
  function NoKtlintError(platform: string): (n: ErrorNotice)
    ensures n.popup == n.channelLine == ErrorTag + " " + NoKtlintMessage(platform)
  {
    ShowError(Some(NoKtlintMessage(platform)))
  }
}
