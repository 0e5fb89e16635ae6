/**
 * The key handling of project/cli_test: a terminal form with three
 * checkboxes, two text inputs and a row of three buttons, where Tab moves
 * the focus between the three areas.
 */
module CliForm {

  /** The keys `crossterm` reports; `Other` stands for every key and event the loop ignores. */
  datatype Key = Char(c: char) | Tab | Down | Up | Left | Right | Enter | Backspace | Other

  /** The button labels; only their number matters to the key handling. */
  const BUTTONS: seq<string> := ["OK", "Cancel", "Apply"]

  /** The form's variables: the checkbox states, the two inputs, the focused area and the selected button. */
  datatype FormState = FormState(
    checkboxes: seq<bool>,
    input1: string,
    input2: string,
    activeInput: nat,     // 0 checkboxes, 1 inputs, 2 buttons
    selectedButton: nat)  // index into the checkboxes and the buttons alike

  /** What the loop keeps true: three checkboxes, a focus among three areas and a selection inside both vectors. */
  predicate Valid(s: FormState)
  {
    |s.checkboxes| == 3 && s.activeInput < 3 && s.selectedButton < 3
  }

  /** The state before the first key. */
  const INITIAL: FormState := FormState([false, false, false], "", "", 0, 0)

  /** A string without its last character (`String::pop`). */
  function Pop(s: string): string
    requires s != []
  {
    s[..|s| - 1]
  }

  /** The `match key.code` of the event loop, for every key but 'q', which leaves the loop. */
  function KeyStep(s: FormState, key: Key): (t: FormState)
    requires Valid(s) && key != Char('q')
  {
    match key
    case Tab => s.(activeInput := (s.activeInput + 1) % 3)
    case Char(' ') =>
      if s.activeInput == 0 then
        s.(checkboxes := s.checkboxes[s.selectedButton := !s.checkboxes[s.selectedButton]])
      else s
    case Down =>
      if s.activeInput == 0 && s.selectedButton < |s.checkboxes| - 1 then s.(selectedButton := s.selectedButton + 1)
      else if s.activeInput == 1 then s.(activeInput := 2)
      else s
    case Up =>
      if s.activeInput == 0 && s.selectedButton > 0 then s.(selectedButton := s.selectedButton - 1)
      else if s.activeInput == 2 then s.(activeInput := 1)
      else s
    case Left =>
      if s.activeInput == 2 && s.selectedButton > 0 then s.(selectedButton := s.selectedButton - 1) else s
    case Right =>
      if s.activeInput == 2 && s.selectedButton < |BUTTONS| - 1 then s.(selectedButton := s.selectedButton + 1) else s
    case Enter => s
    case Char(c) =>
      if s.activeInput == 1 then s.(input1 := s.input1 + [c])
      else if s.activeInput == 2 then s.(input2 := s.input2 + [c])
      else s
    case Backspace =>
      if s.activeInput == 1 && s.input1 != [] then s.(input1 := Pop(s.input1))
      else if s.activeInput == 2 && s.input2 != [] then s.(input2 := Pop(s.input2))
      else s
    case Other => s
  }

  /** Every key keeps the focus among the three areas and the selection inside both vectors, so the checkbox index never goes out of bounds. */
  lemma KeyStepKeepsValid(s: FormState, key: Key)
    requires Valid(s) && key != Char('q')
    ensures Valid(KeyStep(s, key))
  {
  }

  /** after is before with key's character typed at its end, or with its last character erased by Backspace. */
  predicate TypedOrErased(before: string, after: string, key: Key)
  {
    || (key.Char? && key.c != ' ' && after == before + [key.c])
    || (key == Backspace && before != [] && after + [before[|before| - 1]] == before)
  }

  /** Only the keys that edit text change the inputs, only the focused input changes, and by one character. */
  lemma InputsChangeOnlyByTyping(s: FormState, key: Key)
    requires Valid(s) && key != Char('q')
    ensures var t := KeyStep(s, key); t.input1 != s.input1 ==> s.activeInput == 1 && TypedOrErased(s.input1, t.input1, key)
    ensures var t := KeyStep(s, key); t.input2 != s.input2 ==> s.activeInput == 2 && TypedOrErased(s.input2, t.input2, key)
  {
    if key == Backspace && s.activeInput == 1 && s.input1 != [] {
      assert Pop(s.input1) + [s.input1[|s.input1| - 1]] == s.input1;
    }
    if key == Backspace && s.activeInput == 2 && s.input2 != [] {
      assert Pop(s.input2) + [s.input2[|s.input2| - 1]] == s.input2;
    }
  }

  /**
   * The converse: a character other than 'q' and ' ' is appended to the
   * focused input and nothing else changes; with the checkboxes focused it
   * changes nothing at all.
   */
  lemma TypingAppendsToFocusedInput(s: FormState, c: char)
    requires Valid(s) && c != 'q' && c != ' '
    ensures var t := KeyStep(s, Char(c));
      && (s.activeInput == 0 ==> t == s)
      && (s.activeInput == 1 ==> t.input1 == s.input1 + [c] && t.(input1 := s.input1) == s)
      && (s.activeInput == 2 ==> t.input2 == s.input2 + [c] && t.(input2 := s.input2) == s)
  {
  }

  /**
   * Backspace on a non-empty focused input removes exactly its last
   * character and changes nothing else; otherwise it changes nothing.
   */
  lemma BackspaceErasesFromFocusedInput(s: FormState)
    requires Valid(s)
    ensures var t := KeyStep(s, Backspace);
      && (s.activeInput == 1 && s.input1 != [] ==>
            t.input1 + [s.input1[|s.input1| - 1]] == s.input1 && t.(input1 := s.input1) == s)
      && (s.activeInput == 2 && s.input2 != [] ==>
            t.input2 + [s.input2[|s.input2| - 1]] == s.input2 && t.(input2 := s.input2) == s)
      && (s.activeInput == 0 || (s.activeInput == 1 && s.input1 == []) || (s.activeInput == 2 && s.input2 == []) ==> t == s)
  {
    if s.activeInput == 1 && s.input1 != [] {
      assert Pop(s.input1) + [s.input1[|s.input1| - 1]] == s.input1;
    }
    if s.activeInput == 2 && s.input2 != [] {
      assert Pop(s.input2) + [s.input2[|s.input2| - 1]] == s.input2;
    }
  }

  /** Space only ever toggles the selected checkbox, and only with the checkboxes focused; a space is never typed into an input. */
  lemma SpaceTogglesSelectedCheckbox(s: FormState)
    requires Valid(s)
    ensures var t := KeyStep(s, Char(' '));
      && t.input1 == s.input1 && t.input2 == s.input2
      && t.activeInput == s.activeInput && t.selectedButton == s.selectedButton
      && (forall i :: 0 <= i < 3 ==>
            (t.checkboxes[i] != s.checkboxes[i] <==> s.activeInput == 0 && i == s.selectedButton))
  {
  }

  /** Typing a character into an input and erasing it restores the form. */
  lemma BackspaceUndoesTyping(s: FormState, c: char)
    requires Valid(s) && c != 'q' && c != ' '
    ensures KeyStep(KeyStep(s, Char(c)), Backspace) == s
  {
    if s.activeInput == 1 {
      assert Pop(s.input1 + [c]) == s.input1;
    } else if s.activeInput == 2 {
      assert Pop(s.input2 + [c]) == s.input2;
    }
  }

  /** Three Tabs bring the focus back where it was. */
  lemma ThreeTabsCycle(s: FormState)
    requires Valid(s)
    ensures KeyStep(KeyStep(KeyStep(s, Tab), Tab), Tab) == s
  {
  }

  /** In the checkbox area Down and Up move the selection by one within 0..2, and undo each other away from the ends. */
  lemma DownUpInCheckboxes(s: FormState)
    requires Valid(s) && s.activeInput == 0
    ensures KeyStep(s, Down).selectedButton == if s.selectedButton < 2 then s.selectedButton + 1 else 2
    ensures KeyStep(s, Up).selectedButton == if s.selectedButton > 0 then s.selectedButton - 1 else 0
    ensures s.selectedButton < 2 ==> KeyStep(KeyStep(s, Down), Up) == s
  {
  }

  /** Outside the checkbox area Down and Up only move the focus between the inputs and the buttons. */
  lemma DownUpMoveFocus(s: FormState)
    requires Valid(s) && s.activeInput != 0
    ensures KeyStep(s, Down) == if s.activeInput == 1 then s.(activeInput := 2) else s
    ensures KeyStep(s, Up) == if s.activeInput == 2 then s.(activeInput := 1) else s
  {
  }

  /** Left and Right change the selection only in the button area, by one and within the buttons. */
  lemma LeftRightOnlyOnButtons(s: FormState)
    requires Valid(s)
    ensures s.activeInput != 2 ==> KeyStep(s, Left) == s && KeyStep(s, Right) == s
    ensures s.activeInput == 2 ==>
      && KeyStep(s, Left).selectedButton == (if s.selectedButton > 0 then s.selectedButton - 1 else 0)
      && KeyStep(s, Right).selectedButton == (if s.selectedButton < |BUTTONS| - 1 then s.selectedButton + 1 else |BUTTONS| - 1)
  {
  }

  /** The keys up to and including the first 'q', or all of them: what the loop reads. */
  function KeysRead(keys: seq<Key>): (n: nat)
    ensures n <= |keys|
    ensures forall i :: 0 <= i < n - 1 ==> keys[i] != Char('q')
    ensures n < |keys| ==> n > 0 && keys[n - 1] == Char('q')
    ensures n == 0 <==> keys == []
  {
    if keys == [] then 0
    else if keys[0] == Char('q') then 1
    else 1 + KeysRead(keys[1..])
  }

  /** The form after the keys up to the first 'q'. */
  function Replay(s: FormState, keys: seq<Key>): (t: FormState)
    requires Valid(s)
    ensures Valid(t)
    decreases |keys|
  {
    if keys == [] || keys[0] == Char('q') then s
    else
      KeyStepKeepsValid(s, keys[0]);
      Replay(KeyStep(s, keys[0]), keys[1..])
  }

  /** The form's variables, held by the event loop. */
  class Form {
    var checkboxes: seq<bool>
    var input1: string
    var input2: string
    var activeInput: nat
    var selectedButton: nat

    function State(): FormState
      reads this
    {
      FormState(checkboxes, input1, input2, activeInput, selectedButton)
    }

    /** The variables as `main` declares them. */
    constructor ()
      ensures State() == INITIAL && Valid(State())
    {
      checkboxes := [false, false, false];
      input1 := "";
      input2 := "";
      activeInput := 0;
      selectedButton := 0;
    }

    /** One key event; 'q' asks the loop to stop and changes nothing. */
    method HandleKey(key: Key) returns (quit: bool)
      requires Valid(State())
      modifies this
      ensures quit <==> key == Char('q')
      ensures State() == if quit then old(State()) else KeyStep(old(State()), key)
    {
      quit := false;
      match key {
        case Char('q') => quit := true;
        case Tab => activeInput := (activeInput + 1) % 3;
        case Char(' ') =>
          if activeInput == 0 {
            checkboxes := checkboxes[selectedButton := !checkboxes[selectedButton]];
          }
        case Down =>
          if activeInput == 0 && selectedButton < |checkboxes| - 1 {
            selectedButton := selectedButton + 1;
          } else if activeInput == 1 {
            activeInput := 2;
          }
        case Up =>
          if activeInput == 0 && selectedButton > 0 {
            selectedButton := selectedButton - 1;
          } else if activeInput == 2 {
            activeInput := 1;
          }
        case Left =>
          if activeInput == 2 && selectedButton > 0 {
            selectedButton := selectedButton - 1;
          }
        case Right =>
          if activeInput == 2 && selectedButton < |BUTTONS| - 1 {
            selectedButton := selectedButton + 1;
          }
        case Enter =>
        case Char(c) =>
          if activeInput == 1 {
            input1 := input1 + [c];
          } else if activeInput == 2 {
            input2 := input2 + [c];
          }
        case Backspace =>
          if activeInput == 1 && input1 != [] {
            input1 := input1[..|input1| - 1];
          } else if activeInput == 2 && input2 != [] {
            input2 := input2[..|input2| - 1];
          }
        case Other =>
      }
    }

    /** The event loop over the keys typed: handle each until 'q'. Returns how many keys it read. */
    method Run(keys: seq<Key>) returns (read: nat)
      requires Valid(State())
      modifies this
      ensures read == KeysRead(keys)
      ensures State() == Replay(old(State()), keys)
    {
      read := 0;
      var quit := false;
      while read < |keys| && !quit
        invariant read <= |keys| && Valid(State())
        invariant quit ==> read > 0 && keys[read - 1] == Char('q')
        invariant !quit ==> KeysRead(keys) == read + KeysRead(keys[read..])
        invariant quit ==> KeysRead(keys) == read
        invariant !quit ==> Replay(old(State()), keys) == Replay(State(), keys[read..])
        invariant quit ==> Replay(old(State()), keys) == State()
        decreases |keys| - read, if quit then 0 else 1
      {
        assert keys[read..][0] == keys[read] && keys[read..][1..] == keys[read + 1..];
        ghost var before := State();
        quit := HandleKey(keys[read]);
        if !quit {
          KeyStepKeepsValid(before, keys[read]);
        }
        read := read + 1;
      }
    }
  }
}
