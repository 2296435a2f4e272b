/** objectRepositories/GiftCards: the sender-details checks of the gift-card
    form. The email and mobile texts are checked against regular
    expressions, the outcome is kept in two flags, and the test-data row
    gets a Valid/Invalid cell in column 6. */
module GiftCards {
  import opened Common
  import opened ExcelWrite

  // -------------------------------------------------------------------------
  // The email pattern ^[A-Za-z0-9+_.-]+@[A-Za-z0-9.-]+\.[A-Za-z]{2,}$,
  // matched against the whole input by String.matches.

  predicate Letter(c: char) { 'A' <= c <= 'Z' || 'a' <= c <= 'z' }
  predicate Digit(c: char) { '0' <= c <= '9' }

  /** [A-Za-z0-9+_.-] */
  predicate LocalChar(c: char) { Letter(c) || Digit(c) || c == '+' || c == '_' || c == '.' || c == '-' }

  /** [A-Za-z0-9.-] */
  predicate DomainChar(c: char) { Letter(c) || Digit(c) || c == '.' || c == '-' }

  /** One way for the pattern to match: the local part is s[..at], the
      domain s[at + 1..dot], the top-level part s[dot + 1..]. */
  predicate EmailSplitAt(s: string, at: int, dot: int)
  {
    0 < at && at + 1 < dot && dot + 2 < |s|
    && (forall i :: 0 <= i < at ==> LocalChar(s[i]))
    && s[at] == '@'
    && (forall i :: at < i < dot ==> DomainChar(s[i]))
    && s[dot] == '.'
    && (forall i :: dot < i < |s| ==> Letter(s[i]))
  }

  /** The regular expression's meaning: some split of the input fits it. */
  ghost predicate MatchesEmailPattern(s: string)
  {
    exists at, dot :: EmailSplitAt(s, at, dot)
  }

  /** String.indexOf(c). */
  function FirstIndexOfChar(s: string, c: char): (r: Option<nat>)
    ensures r.None? ==> forall i :: 0 <= i < |s| ==> s[i] != c
    ensures r.Some? ==> r.value < |s| && s[r.value] == c && forall i :: 0 <= i < r.value ==> s[i] != c
    decreases |s|
  {
    if s == [] then None
    else if s[0] == c then Some(0)
    else match FirstIndexOfChar(s[1..], c)
      case None => None
      case Some(k) => Some(k + 1)
  }

  /** String.lastIndexOf(c). */
  function LastIndexOfChar(s: string, c: char): (r: Option<nat>)
    ensures r.None? ==> forall i :: 0 <= i < |s| ==> s[i] != c
    ensures r.Some? ==> r.value < |s| && s[r.value] == c && forall i :: r.value < i < |s| ==> s[i] != c
    decreases |s|
  {
    if s == [] then None
    else if s[|s| - 1] == c then Some(|s| - 1)
    else LastIndexOfChar(s[..|s| - 1], c)
  }

  /** A direct check: no part before the '@' or after the last '.' can hold
      that character, so the only split worth trying is the first '@' and
      the last '.'. */
  predicate IsEmail(s: string)
  {
    var at := FirstIndexOfChar(s, '@');
    var dot := LastIndexOfChar(s, '.');
    at.Some? && dot.Some? && EmailSplitAt(s, at.value, dot.value)
  }

  lemma EmailPatternIsEmail(s: string)
    ensures MatchesEmailPattern(s) <==> IsEmail(s)
  {
    if MatchesEmailPattern(s) {
      var at, dot :| EmailSplitAt(s, at, dot);
      var a, d := FirstIndexOfChar(s, '@'), LastIndexOfChar(s, '.');
      assert a.Some? && d.Some?;
      assert a == Some(at as nat);
      assert d == Some(dot as nat);
    }
    if IsEmail(s) {
      var at, dot := FirstIndexOfChar(s, '@').value, LastIndexOfChar(s, '.').value;
      assert EmailSplitAt(s, at, dot);
    }
  }

  /** ^\d{10}$: exactly ten ASCII digits (\d is [0-9] in java.util.regex). */
  predicate IsTenDigits(s: string)
  {
    |s| == 10 && forall i :: 0 <= i < |s| ==> Digit(s[i])
  }

  // -------------------------------------------------------------------------
  // The status cell.

  const StatusColumn := 6
  const AcceptMessage := "Accept Conditions not displayed"

  /** "Valid" in green exactly when neither flag is raised, else "Invalid" in red. */
  function Status(emailFlag: bool, mobileFlag: bool): (r: (string, Color))
    ensures r.0 == "Valid" <==> !emailFlag && !mobileFlag
    ensures r.1 == LightGreen <==> !emailFlag && !mobileFlag
    ensures r.0 == "Invalid" <==> emailFlag || mobileFlag
  {
    if !emailFlag && !mobileFlag then ("Valid", LightGreen) else ("Invalid", Red)
  }

  /** The cells after setCellValue then the fill of the status cell. */
  function WithStatus(cells: map<(int, int), Cell>, rowIndex: int, emailFlag: bool, mobileFlag: bool): map<(int, int), Cell>
  {
    var st := Status(emailFlag, mobileFlag);
    WithFill(WithValue(cells, rowIndex, StatusColumn, st.0), rowIndex, StatusColumn, st.1)
  }

  /** The status cell holds the status text in its colour; no other cell changes. */
  lemma StatusCellOnly(cells: map<(int, int), Cell>, rowIndex: int, emailFlag: bool, mobileFlag: bool, r: int, c: int)
    ensures CellAt(WithStatus(cells, rowIndex, emailFlag, mobileFlag), rowIndex, StatusColumn)
         == Cell(Text(Status(emailFlag, mobileFlag).0), SolidFill(Status(emailFlag, mobileFlag).1))
    ensures (r, c) != (rowIndex, StatusColumn) ==> CellAt(WithStatus(cells, rowIndex, emailFlag, mobileFlag), r, c) == CellAt(cells, r, c)
  {
    var st := Status(emailFlag, mobileFlag);
    var after := WithValue(cells, rowIndex, StatusColumn, st.0);
    ValueIsRead(cells, rowIndex, StatusColumn, st.0);
    FillKeepsValues(after, rowIndex, StatusColumn, st.1, rowIndex, StatusColumn);
    if (r, c) != (rowIndex, StatusColumn) {
      WithValueFrame(cells, rowIndex, StatusColumn, st.0, r, c);
      FillKeepsValues(after, rowIndex, StatusColumn, st.1, r, c);
    }
  }

  // -------------------------------------------------------------------------
  // The page state: the two static flags, the T&C clicks and the
  // screenshots taken (by file-name prefix).

  class GiftCardForm {
    var emailFlag: bool
    var mobileFlag: bool
    var tncClicks: nat
    var screenshots: seq<string>

    constructor ()
      ensures !emailFlag && !mobileFlag && tncClicks == 0 && screenshots == []
    {
      emailFlag, mobileFlag, tncClicks, screenshots := false, false, 0, [];
    }

    /** validateEmail: the flag is reset, and raised only after T&C was
        clicked for an address the pattern rejects. */
    method ValidateEmail(emailInput: string, tncShown: bool) returns (outcome: Outcome)
      modifies this
      ensures mobileFlag == old(mobileFlag) && screenshots == old(screenshots)
      ensures IsEmail(emailInput) ==> outcome == Pass && !emailFlag && tncClicks == old(tncClicks)
      ensures !IsEmail(emailInput) && !tncShown ==>
        outcome == Fail(AssertionFailed(AcceptMessage)) && !emailFlag && tncClicks == old(tncClicks)
      ensures !IsEmail(emailInput) && tncShown ==> outcome == Pass && emailFlag && tncClicks == old(tncClicks) + 1
    {
      emailFlag := false;
      if !IsEmail(emailInput) {
        if !tncShown {
          return Fail(AssertionFailed(AcceptMessage));
        }
        tncClicks := tncClicks + 1;
        emailFlag := true;
      }
      outcome := Pass;
    }

    /** validateMobileNum: T&C is clicked either way; the flag says whether
        the number was rejected. */
    method ValidateMobileNum(mobileInput: string)
      modifies this
      ensures emailFlag == old(emailFlag) && screenshots == old(screenshots)
      ensures mobileFlag == !IsTenDigits(mobileInput)
      ensures tncClicks == old(tncClicks) + 1
    {
      mobileFlag := false;
      if !IsTenDigits(mobileInput) {
        tncClicks := tncClicks + 1;
        mobileFlag := true;
      } else {
        tncClicks := tncClicks + 1;
      }
    }

    /** validation: the email check, then (if it did not fail) the mobile check. */
    method Validation(emailInput: string, mobileInput: string, tncShown: bool) returns (outcome: Outcome)
      modifies this
      ensures screenshots == old(screenshots)
      ensures outcome.Fail? <==> !IsEmail(emailInput) && !tncShown
      ensures outcome.Pass? ==> emailFlag == !IsEmail(emailInput) && mobileFlag == !IsTenDigits(mobileInput)
      ensures outcome.Fail? ==> !emailFlag && mobileFlag == old(mobileFlag) && tncClicks == old(tncClicks)
    {
      outcome := ValidateEmail(emailInput, tncShown);
      if outcome.Fail? {
        return;
      }
      ValidateMobileNum(mobileInput);
    }

    /** screenShots: one screenshot per raised flag, Email first; then the
        status cell of `rowIndex`. A row index POI refuses makes
        setCellValue throw before the fill. */
    method ScreenShots(writer: Writer, rowIndex: int) returns (outcome: Outcome)
      requires writer.Valid()
      modifies this, writer
      ensures emailFlag == old(emailFlag) && mobileFlag == old(mobileFlag) && tncClicks == old(tncClicks)
      ensures screenshots == old(screenshots) + (if emailFlag then ["Email"] else []) + (if mobileFlag then ["MobileNo"] else [])
      ensures writer.Valid()
      ensures outcome == if ValidRow(rowIndex) then Pass else Fail(IllegalArgument)
      ensures writer.rows == if ValidRow(rowIndex) then old(writer.rows) + {rowIndex} else old(writer.rows)
      ensures writer.cells == if ValidRow(rowIndex) then WithStatus(old(writer.cells), rowIndex, emailFlag, mobileFlag) else old(writer.cells)
    {
      if emailFlag {
        screenshots := screenshots + ["Email"];
      }
      if mobileFlag {
        screenshots := screenshots + ["MobileNo"];
      }
      var st := Status(emailFlag, mobileFlag);
      var ok := writer.SetCellValue(rowIndex, StatusColumn, st.0);
      if !ok {
        return Fail(IllegalArgument);
      }
      if !emailFlag && !mobileFlag {
        ok := writer.FillCellGreen(rowIndex, StatusColumn);
      } else {
        ok := writer.FillCellRed(rowIndex, StatusColumn);
      }
      outcome := Pass;
    }
  }
}
