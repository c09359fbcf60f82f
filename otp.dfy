/**
 * The security-verification page: six single-character input cells, the
 * composite `code` form value kept equal to the cells joined together, the
 * schema error of the form and a custom error set after a request completes.
 * Moving the browser focus between cells is modelled as the `focus` index.
 */
module Otp {
  import opened Digits
  import opened Validation
  import opened Gateway

  /** No cell has been focused by the page itself. */
  const NoFocus: int := -1

  /** The message every completed verification request leaves behind. */
  const ExpiredMessage: string := "Code expired! Put new code."

  /** The key whose press on an empty cell steps back one cell. */
  const Backspace: string := "Backspace"

  /** `cells.join("")`. */
  function Join(cells: seq<string>): string
    decreases |cells|
  {
    if cells == [] then "" else cells[0] + Join(cells[1..])
  }

  /** `paste.split("")`: one cell per character. */
  function Split(s: string): (cells: seq<string>)
    ensures |cells| == |s|
    ensures forall i :: 0 <= i < |s| ==> cells[i] == [s[i]]
  {
    seq(|s|, i requires 0 <= i < |s| => [s[i]])
  }

  /** Six empty cells, the initial and the cleared state. */
  function EmptyCells(): (cells: seq<string>)
    ensures |cells| == CodeLength
    ensures forall i :: 0 <= i < CodeLength ==> cells[i] == ""
  {
    seq(CodeLength, _ => "")
  }

  /** Each cell holds digits only. */
  predicate CellsDigits(cells: seq<string>) {
    forall i :: 0 <= i < |cells| ==> AllDigits(cells[i])
  }

  /** Each cell holds at most one character, as `maxLength="1"` lets the user type. */
  predicate CellsAtMostOne(cells: seq<string>) {
    forall i :: 0 <= i < |cells| ==> |cells[i]| <= 1
  }

  // ---------------------------------------------------------------------
  // Joining cells.

  /** Joining is compatible with splitting the cells in two. */
  lemma {:induction false} JoinAppend(a: seq<string>, b: seq<string>)
    ensures Join(a + b) == Join(a) + Join(b)
    decreases |a|
  {
    if a == [] {
      assert a + b == b;
    } else {
      assert (a + b)[1..] == a[1..] + b;
      JoinAppend(a[1..], b);
    }
  }

  /**
   * Writing one cell changes the composite only at that cell's place: the
   * cells before and after it contribute what they contributed before.
   */
  lemma JoinUpdate(cells: seq<string>, i: nat, v: string)
    requires i < |cells|
    ensures Join(cells[i := v]) == Join(cells[..i]) + v + Join(cells[i + 1..])
    ensures Join(cells) == Join(cells[..i]) + cells[i] + Join(cells[i + 1..])
  {
    var updated := cells[i := v];
    assert updated == cells[..i] + [v] + cells[i + 1..];
    assert cells == cells[..i] + [cells[i]] + cells[i + 1..];
    JoinAppend(cells[..i] + [v], cells[i + 1..]);
    JoinAppend(cells[..i], [v]);
    JoinAppend(cells[..i] + [cells[i]], cells[i + 1..]);
    JoinAppend(cells[..i], [cells[i]]);
    assert Join([v]) == v by { assert [v][1..] == []; }
    assert Join([cells[i]]) == cells[i] by { assert [cells[i]][1..] == []; }
  }

  /** Spreading a string over cells and joining them gives the string back. */
  lemma {:induction false} JoinSplit(s: string)
    ensures Join(Split(s)) == s
    decreases |s|
  {
    if s != [] {
      assert Split(s)[1..] == Split(s[1..]);
      JoinSplit(s[1..]);
      assert s == [s[0]] + s[1..];
    }
  }

  /** Cleared cells join to the empty code. */
  lemma {:induction false} JoinAllEmpty(cells: seq<string>)
    requires forall i :: 0 <= i < |cells| ==> cells[i] == ""
    ensures Join(cells) == ""
    decreases |cells|
  {
    if cells != [] {
      JoinAllEmpty(cells[1..]);
    }
  }

  /** Digit cells join to a digit string. */
  lemma {:induction false} JoinDigits(cells: seq<string>)
    requires CellsDigits(cells)
    ensures AllDigits(Join(cells))
    decreases |cells|
  {
    if cells != [] {
      JoinDigits(cells[1..]);
      var rest := Join(cells[1..]);
      assert forall i :: |cells[0]| <= i < |cells[0]| + |rest| ==> (cells[0] + rest)[i] == rest[i - |cells[0]|];
    }
  }

  /**
   * With at most one character per cell the composite is never longer than
   * the number of cells, and reaches it exactly when every cell is filled.
   */
  lemma {:induction false} JoinLength(cells: seq<string>)
    requires CellsAtMostOne(cells)
    ensures |Join(cells)| <= |cells|
    ensures |Join(cells)| == |cells| <==> forall i :: 0 <= i < |cells| ==> |cells[i]| == 1
    decreases |cells|
  {
    if cells != [] {
      JoinLength(cells[1..]);
      assert forall i :: 1 <= i < |cells| ==> cells[i] == cells[1..][i - 1];
    }
  }

  /**
   * Six digit cells of at most one character each form a code the schema
   * accepts exactly when all six are filled.
   */
  lemma FilledCellsAccepted(cells: seq<string>)
    requires |cells| == CodeLength && CellsDigits(cells) && CellsAtMostOne(cells)
    ensures CodeAccepted(Join(cells)) <==> forall i :: 0 <= i < CodeLength ==> |cells[i]| == 1
  {
    JoinDigits(cells);
    JoinLength(cells);
    CodeSchemaErrors(Join(cells));
  }

  /** Writing a digit string into one cell keeps the cell invariants. */
  lemma WriteCell(cells: seq<string>, i: nat, v: string)
    requires i < |cells| && CellsDigits(cells) && AllDigits(v)
    ensures CellsDigits(cells[i := v])
    ensures CellsAtMostOne(cells) && |v| <= 1 ==> CellsAtMostOne(cells[i := v])
  {
  }

  /**
   * The form's resolver running the code schema on a composite code: it
   * accepts exactly six digits.
   */
  method ResolveCode(code: string) returns (accepted: bool)
    ensures accepted <==> |code| == CodeLength && AllDigits(code)
  {
    CodeSchemaErrors(code);
    accepted := CodeAccepted(code);
  }

  // ---------------------------------------------------------------------
  // The page state and its handlers.

  class CodeEntry {
    /** The six cells, replaced by a fresh array on every update as React state is. */
    var cells: array<string>
    /** The form's `code` value. */
    var composite: string
    /** The custom error shown under the cells. */
    var customError: string
    /** Whether the form currently reports a schema error for `code`. */
    var schemaError: bool
    /** The cell the page last moved the focus to. */
    var focus: int
    /** The codes posted to the verification endpoint, oldest first. */
    var posted: seq<string>
    /** Posted requests whose completion handlers have not run yet. */
    var inFlight: nat

    ghost predicate Valid()
      reads this, cells
    {
      && cells.Length == CodeLength
      && CellsDigits(cells[..])
      && composite == Join(cells[..])
      && NoFocus <= focus < CodeLength
      && (customError == "" || customError == ExpiredMessage)
      && inFlight <= |posted|
    }

    /** Every cell holds at most one character. */
    ghost predicate WithinMaxLength()
      reads this, cells
    {
      CellsAtMostOne(cells[..])
    }

    /** The page as first rendered: six empty cells, an empty code, no errors. */
    constructor ()
      ensures Valid() && WithinMaxLength()
      ensures cells[..] == EmptyCells() && composite == ""
      ensures customError == "" && !schemaError
      ensures focus == NoFocus && posted == [] && inFlight == 0
    {
      cells := new string[CodeLength](_ => "");
      composite := "";
      customError := "";
      schemaError := false;
      focus := NoFocus;
      posted := [];
      inFlight := 0;
      new;
      JoinAllEmpty(cells[..]);
    }

    /**
     * The change handler of cell `index`. A value with a non-digit is
     * ignored; otherwise only that cell is rewritten, the code is rebuilt
     * and re-validated, the custom error is cleared, and a non-empty value
     * in any cell but the last moves the focus to the next cell.
     */
    method HandleChange(value: string, index: int)
      requires Valid() && 0 <= index < CodeLength
      modifies this
      ensures Valid()
      ensures MatchesDigitStar(value) ==>
        && cells[..] == old(cells[..])[index := value]
        && composite == Join(old(cells[..])[..index]) + value + Join(old(cells[..])[index + 1..])
        && customError == ""
        && (schemaError <==> !(|composite| == CodeLength && AllDigits(composite)))
        && focus == (if value != "" && index < CodeLength - 1 then index + 1 else old(focus))
      ensures !MatchesDigitStar(value) ==>
        && cells == old(cells) && cells[..] == old(cells[..]) && composite == old(composite)
        && customError == old(customError) && schemaError == old(schemaError) && focus == old(focus)
      ensures old(WithinMaxLength()) && |value| <= 1 ==> WithinMaxLength()
      ensures posted == old(posted) && inFlight == old(inFlight)
    {
      if !MatchesDigitStar(value) {
        return;
      }
      DigitStarIsAllDigits(value);
      var current := cells[..];
      var next := CopyWith(current, index, value);
      WriteCell(current, index, value);
      JoinUpdate(current, index, value);
      if value != "" && index < CodeLength - 1 {
        focus := index + 1;
      }
      SetCode(next);
      customError := "";
    }

    /** `newCode = [...code]; newCode[index] = value`: a fresh copy with one cell replaced. */
    static method CopyWith(current: seq<string>, index: int, value: string) returns (next: array<string>)
      requires 0 <= index < |current|
      ensures fresh(next) && next[..] == current[index := value]
    {
      next := new string[|current|](i requires 0 <= i < |current| => current[i]);
      next[index] := value;
    }

    /**
     * The state setter of the cells together with the form value set to
     * their join with validation requested: the code schema runs at once.
     */
    method SetCode(next: array<string>)
      requires Valid() && next.Length == CodeLength && CellsDigits(next[..])
      modifies this`cells, this`composite, this`schemaError
      ensures Valid() && cells == next && composite == Join(next[..])
      ensures schemaError <==> !(|composite| == CodeLength && AllDigits(composite))
    {
      var code := Join(next[..]);
      var accepted := ResolveCode(code);
      cells, composite, schemaError := next, code, !accepted;
    }

    /**
     * The paste handler. Exactly six digits are spread one per cell and
     * become the code, re-validated, and the custom error is cleared;
     * anything else is ignored.
     */
    method HandlePaste(paste: string)
      requires Valid()
      modifies this
      ensures Valid()
      ensures MatchesDigitsExactly(paste, CodeLength) ==>
        && cells[..] == Split(paste) && composite == paste
        && customError == "" && !schemaError && WithinMaxLength()
      ensures !MatchesDigitsExactly(paste, CodeLength) ==>
        && cells == old(cells) && cells[..] == old(cells[..]) && composite == old(composite)
        && customError == old(customError) && schemaError == old(schemaError)
      ensures focus == old(focus) && posted == old(posted) && inFlight == old(inFlight)
    {
      if !MatchesDigitsExactly(paste, CodeLength) {
        return;
      }
      DigitsExactlyIsLengthAndDigits(paste, CodeLength);
      var next := new string[CodeLength](i requires 0 <= i < |paste| => [paste[i]]);
      assert next[..] == Split(paste);
      JoinSplit(paste);
      SetCode(next);
      customError := "";
    }

    /**
     * The key-down handler of cell `index`: Backspace on an empty cell other
     * than the first moves the focus back one cell. Nothing else changes.
     */
    method HandleDelete(key: string, index: int)
      requires Valid() && 0 <= index < CodeLength
      modifies this`focus
      ensures Valid()
      ensures focus == if key == Backspace && cells[index] == "" && index > 0 then index - 1 else old(focus)
    {
      if key == Backspace && cells[index] == "" && index > 0 {
        focus := index - 1;
      }
    }

    /**
     * Submitting the form. The code is validated first: when the schema
     * rejects it the error is shown and nothing is sent. Otherwise the code
     * is posted and, without waiting for the answer, the cells and the code
     * are cleared.
     */
    method Submit() returns (sent: bool)
      requires Valid()
      modifies this
      ensures Valid()
      ensures sent <==> |old(composite)| == CodeLength && AllDigits(old(composite))
      ensures schemaError == !sent
      ensures sent ==>
        && cells[..] == EmptyCells() && composite == "" && WithinMaxLength()
        && posted == old(posted) + [old(composite)] && inFlight == old(inFlight) + 1
      ensures !sent ==>
        && cells == old(cells) && cells[..] == old(cells[..]) && composite == old(composite)
        && posted == old(posted) && inFlight == old(inFlight)
      ensures customError == old(customError) && focus == old(focus)
    {
      sent := ResolveCode(composite);
      schemaError := !sent;
      if sent {
        posted := posted + [composite];
        inFlight := inFlight + 1;
        cells := new string[CodeLength](_ => "");
        composite := "";
        JoinAllEmpty(cells[..]);
      }
    }

    /**
     * A posted code's request completes. The success handler calls a
     * `navigate` that the page never declares, so it throws and the
     * rejection handler runs as well: either way the expired-code message is
     * set, and nothing else changes.
     */
    method CompleteRequest(outcome: Outcome)
      requires Valid() && inFlight > 0
      modifies this`customError, this`inFlight
      ensures Valid()
      ensures customError == ExpiredMessage && inFlight == old(inFlight) - 1
    {
      inFlight := inFlight - 1;
      match outcome
      case Succeeded =>
        // navigate("/otp") throws a ReferenceError, caught below.
        customError := ExpiredMessage;
      case Failed =>
        customError := ExpiredMessage;
    }
  }

  // ---------------------------------------------------------------------
  // Whole interactions, from a freshly rendered page.

  /** Pasting six digits and confirming posts exactly those digits and clears the cells. */
  method PasteThenSubmit(s: string) returns (sent: bool, posted: seq<string>, composite: string, schemaError: bool)
    requires |s| == CodeLength && AllDigits(s)
    ensures sent && posted == [s] && composite == "" && !schemaError
  {
    var entry := new CodeEntry();
    DigitsExactlyIsLengthAndDigits(s, CodeLength);
    entry.HandlePaste(s);
    sent := entry.Submit();
    posted, composite, schemaError := entry.posted, entry.composite, entry.schemaError;
  }

  /** A pasted string that is not six digits changes nothing, so confirming sends nothing. */
  method BadPasteThenSubmit(s: string) returns (sent: bool, posted: seq<string>, schemaError: bool)
    requires !(|s| == CodeLength && AllDigits(s))
    ensures !sent && posted == [] && schemaError
  {
    var entry := new CodeEntry();
    DigitsExactlyIsLengthAndDigits(s, CodeLength);
    entry.HandlePaste(s);
    sent := entry.Submit();
    posted, schemaError := entry.posted, entry.schemaError;
  }

  /**
   * The cells after typing the first `n` characters of `s` one per cell: a
   * non-digit leaves its cell empty, as do the cells not reached yet.
   */
  function Typed(s: string, n: nat): (cells: seq<string>)
    ensures |cells| == |s|
  {
    seq(|s|, j requires 0 <= j < |s| => if j < n && IsDigit(s[j]) then [s[j]] else "")
  }

  /**
   * A fresh page after typing the characters of `s` into the six cells in
   * turn. While typing only digits the focus follows to the last cell.
   */
  method TypeCode(s: string) returns (entry: CodeEntry)
    requires |s| == CodeLength
    ensures fresh(entry) && entry.Valid() && entry.WithinMaxLength()
    ensures entry.cells[..] == Typed(s, |s|) && entry.posted == [] && entry.inFlight == 0
    ensures AllDigits(s) ==> entry.focus == CodeLength - 1
  {
    entry := new CodeEntry();
    for i := 0 to CodeLength
      invariant fresh(entry) && entry.Valid() && entry.WithinMaxLength()
      invariant entry.posted == [] && entry.inFlight == 0
      invariant entry.cells[..] == Typed(s, i)
      invariant (forall j :: 0 <= j < i ==> IsDigit(s[j])) ==>
        entry.focus == (if i == 0 then NoFocus else if i < CodeLength then i else CodeLength - 1)
    {
      DigitStarIsAllDigits([s[i]]);
      assert Typed(s, i + 1) == if IsDigit(s[i]) then Typed(s, i)[i := [s[i]]] else Typed(s, i);
      entry.HandleChange([s[i]], i);
    }
  }

  /**
   * Typing the six characters of `s` into the six cells in turn and then
   * confirming posts `s` exactly when every character is a digit (a
   * non-digit is refused by its cell, which stays empty). While typing only
   * digits the focus ends on the last cell.
   */
  method TypeThenSubmit(s: string) returns (sent: bool, posted: seq<string>, focus: int)
    requires |s| == CodeLength
    ensures sent <==> AllDigits(s)
    ensures posted == if sent then [s] else []
    ensures AllDigits(s) ==> focus == CodeLength - 1
  {
    var entry := TypeCode(s);
    ghost var cells := entry.cells[..];
    FilledCellsAccepted(cells);
    if AllDigits(s) {
      assert cells == Split(s);
      JoinSplit(s);
    } else {
      var k :| 0 <= k < CodeLength && !IsDigit(s[k]);
      assert |cells[k]| != 1;
    }
    CodeSchemaErrors(entry.composite);
    sent := entry.Submit();
    posted, focus := entry.posted, entry.focus;
  }

  /** Whatever the server answers, a confirmed code ends with the expired-code message. */
  method SubmitThenComplete(s: string, outcome: Outcome) returns (customError: string, composite: string)
    requires |s| == CodeLength && AllDigits(s)
    ensures customError == ExpiredMessage && composite == ""
  {
    var entry := new CodeEntry();
    DigitsExactlyIsLengthAndDigits(s, CodeLength);
    entry.HandlePaste(s);
    var sent := entry.Submit();
    entry.CompleteRequest(outcome);
    customError, composite := entry.customError, entry.composite;
  }

  /**
   * Backspace on the empty first cell leaves the focus where it was: after a
   * digit typed into the third cell the focus is on the fourth, and stays there.
   */
  method BackspaceAtFirstCell() returns (focus: int)
    ensures focus == 3
  {
    var entry := new CodeEntry();
    assert MatchesDigitStar("1") by {
      assert "1"[1..] == [];
    }
    entry.HandleChange("1", 2);
    entry.HandleDelete(Backspace, 0);
    focus := entry.focus;
  }
}
