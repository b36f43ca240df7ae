/**
 * The message state of the ipkg backend (backends/ipkg/pk-backend-ipkg.c): libipkg
 * reports its messages through ipkg_debug, which keeps the latest error-level one in
 * `last_error`, and ipkg_unknown_error quotes that message when a libipkg call fails.
 */
module IpkgMessages {
  import opened Wrappers
  import opened Text

  /** printf's %s: the text, or "(null)" for NULL, as glibc writes it. */
  function ShowNullable(s: Option<string>): (r: string)
    ensures s.Some? ==> r == s.value
    ensures s.None? ==> r == "(null)"
  {
    s.GetOr("(null)")
  }

  const FailedWith := " failed with error code "
  const LastMessageWas := ". Last message was:\n\n"

  /** The text ipkg_unknown_error hands to pk_backend_error_code. */
  function UnknownErrorText(failedCmd: string, errorCode: int, lastError: Option<string>): (r: string)
    ensures |r| >= |failedCmd| + |FailedWith| + |LastMessageWas| + |ShowNullable(lastError)|
  {
    failedCmd + FailedWith + Decimal(errorCode) + LastMessageWas + ShowNullable(lastError)
  }

  /** The message names the command, carries the code as a %d numeral up to the next
      '.', and ends with the last error message. A numeral is fixed by its value
      (Text.NumeralUnique), so the code text is exactly what %d prints. */
  lemma UnknownErrorReadsBack(failedCmd: string, errorCode: int, lastError: Option<string>)
    ensures exists d ::
              UnknownErrorText(failedCmd, errorCode, lastError)
              == failedCmd + FailedWith + d + LastMessageWas + ShowNullable(lastError)
              && '.' !in d && Numeral(d) && ParseDecimal(d) == errorCode
  {
    var d := Decimal(errorCode);
    DecimalRoundTrip(errorCode);
    if errorCode < 0 {
      DigitsAlphabet(-errorCode);
      assert d == "-" + Digits(-errorCode);
    } else {
      DigitsAlphabet(errorCode);
      DigitsRoundTrip(errorCode);
    }
    assert '.' !in d;
  }

  /** How one ipkg_debug call changes `last_error`: only level 0 (errors) is kept. */
  function DebugUpdate(lastError: Option<string>, level: int, msg: string): Option<string>
  {
    if level != 0 then lastError else Some(msg)
  }

  /** A message libipkg reports: its level and text. */
  datatype Message = Message(level: int, text: string)

  /** `last_error` after a series of ipkg_debug calls, first to last. */
  function Replay(lastError: Option<string>, msgs: seq<Message>): Option<string>
  {
    if msgs == [] then lastError
    else DebugUpdate(Replay(lastError, msgs[..|msgs| - 1]), msgs[|msgs| - 1].level, msgs[|msgs| - 1].text)
  }

  /** Messages above level 0 leave `last_error` as it was. */
  lemma {:induction false} ReplayNoErrors(lastError: Option<string>, msgs: seq<Message>)
    requires forall i :: 0 <= i < |msgs| ==> msgs[i].level != 0
    ensures Replay(lastError, msgs) == lastError
    decreases |msgs|
  {
    if msgs != [] {
      var front := msgs[..|msgs| - 1];
      assert forall i :: 0 <= i < |front| ==> front[i] == msgs[i];
      ReplayNoErrors(lastError, front);
    }
  }

  /** `last_error` holds the text of the latest level-0 message. */
  lemma {:induction false} ReplayLatest(lastError: Option<string>, msgs: seq<Message>, i: int)
    requires 0 <= i < |msgs| && msgs[i].level == 0
    requires forall j :: i < j < |msgs| ==> msgs[j].level != 0
    ensures Replay(lastError, msgs) == Some(msgs[i].text)
    decreases |msgs|
  {
    var front := msgs[..|msgs| - 1];
    if i < |msgs| - 1 {
      assert forall j :: 0 <= j < |front| ==> front[j] == msgs[j];
      ReplayLatest(lastError, front, i);
    }
  }

  /** The backend's message state. */
  class IpkgBackend {
    var lastError: Option<string>

    /** backend_initalize: no message kept yet. */
    constructor ()
      ensures lastError == None
    {
      lastError := None;
    }

    /** ipkg_debug (conf, level, msg): always returns 0; the verbose-mode printing is
        not modelled. */
    method Debug(level: int, msg: string) returns (r: int)
      modifies this
      ensures r == 0
      ensures lastError == DebugUpdate(old(lastError), level, msg)
    {
      if level != 0 {
        return 0;
      }
      lastError := Some(msg);
      return 0;
    }

    /** ipkg_unknown_error (backend, error_code, failed_cmd): the error text, reported as
        PK_ERROR_ENUM_UNKNOWN. */
    method UnknownError(errorCode: int, failedCmd: string) returns (msg: string)
      ensures exists d :: msg == failedCmd + FailedWith + d + LastMessageWas + ShowNullable(lastError)
                          && '.' !in d && Numeral(d) && ParseDecimal(d) == errorCode
    {
      msg := failedCmd + " failed with error code " + Decimal(errorCode)
             + ". Last message was:\n\n" + ShowNullable(lastError);
      assert msg == UnknownErrorText(failedCmd, errorCode, lastError);
      UnknownErrorReadsBack(failedCmd, errorCode, lastError);
    }
  }
}
