/**
 * The reading loop of `EbookReader::read_book`: each key the listener passes
 * on moves the pager one step, and every completed step saves the stream
 * position as the book's progress. The listener thread and its channel are
 * replaced by the sequence of keys it would deliver.
 */
module EbookSession {
  import opened Utf8
  import opened EbookMenu
  import opened EbookPager
  import opened EbookProgress

  /** Why the loop is no longer taking keys. */
  datatype SessionEnd =
    | StoppedByExit         // `ExitReadMode` received
    | StoppedByUnsupported  // `Unsupport` received
    | WaitingForKey         // every key so far was handled; `recv` blocks for the next
    | ReaderHung            // `next_line`'s forward read never returns
    | ReaderPanicked        // a window slice outside the line

  /** The pager state, the saved progress and how the loop ended. */
  datatype Session = Session(state: PagerState, progress: nat, end: SessionEnd)

  /** The pager step a navigation key triggers. */
  function Navigate(book: seq<Byte>, w: nat, v: PagerState, key: HotKey): (r: (PagerState, Step))
    requires w > 0 && v.pos <= |book| && (key == NextLine || key == PreviousLine)
    ensures r.0.pos <= |book|
  {
    if key == NextLine then NextStep(book, w, v) else PreviousStep(book, w, v)
  }

  /** The loop over the keys: navigation keys step the pager and save its position; the others stop the loop. */
  function ReadSession(book: seq<Byte>, w: nat, v: PagerState, progress: nat, keys: seq<HotKey>): (r: Session)
    requires w > 0 && v.pos <= |book|
    ensures r.state.pos <= |book|
    decreases |keys|
  {
    if keys == [] then Session(v, progress, WaitingForKey)
    else if keys[0] == ExitReadMode then Session(v, progress, StoppedByExit)
    else if keys[0] == Unsupported then Session(v, progress, StoppedByUnsupported)
    else
      var r := Navigate(book, w, v, keys[0]);
      match r.1
      case Hung => Session(r.0, progress, ReaderHung)
      case Panicked => Session(r.0, progress, ReaderPanicked)
      case Shown(_) => ReadSession(book, w, r.0, r.0.pos, keys[1..])
  }

  /** Every step of the loop keeps the pager's window counters in range. */
  lemma {:induction false} SessionKeepsConsistent(book: seq<Byte>, w: nat, v: PagerState, progress: nat, keys: seq<HotKey>)
    requires w > 0 && v.pos <= |book| && Consistent(w, v)
    ensures Consistent(w, ReadSession(book, w, v, progress, keys).state)
    decreases |keys|
  {
    if keys != [] && keys[0] != ExitReadMode && keys[0] != Unsupported {
      var r := Navigate(book, w, v, keys[0]);
      if keys[0] == NextLine {
        NextStepConsistent(book, w, v);
      } else {
        PreviousStepConsistent(book, w, v);
      }
      if r.1.Shown? {
        SessionKeepsConsistent(book, w, r.0, r.0.pos, keys[1..]);
      }
    }
  }

  /**
   * The book opens at its saved progress, so while the loop is still taking
   * keys or stopped on a key, the saved progress is the stream position.
   */
  lemma {:induction false} SavedProgressIsPosition(book: seq<Byte>, w: nat, v: PagerState, keys: seq<HotKey>)
    requires w > 0 && v.pos <= |book|
    ensures var r := ReadSession(book, w, v, v.pos, keys);
      r.end != ReaderHung && r.end != ReaderPanicked ==> r.progress == r.state.pos
    decreases |keys|
  {
    if keys != [] && keys[0] != ExitReadMode && keys[0] != Unsupported {
      var r := Navigate(book, w, v, keys[0]);
      if r.1.Shown? {
        SavedProgressIsPosition(book, w, r.0, keys[1..]);
      }
    }
  }

  /** Keys that arrive after the loop stopped are never looked at. */
  lemma {:induction false} StoppedSessionIgnoresLaterKeys(book: seq<Byte>, w: nat, v: PagerState, progress: nat, keys: seq<HotKey>, later: seq<HotKey>)
    requires w > 0 && v.pos <= |book|
    requires ReadSession(book, w, v, progress, keys).end != WaitingForKey
    ensures ReadSession(book, w, v, progress, keys + later) == ReadSession(book, w, v, progress, keys)
    decreases |keys|
  {
    assert (keys + later)[0] == keys[0];
    if keys[0] != ExitReadMode && keys[0] != Unsupported {
      var r := Navigate(book, w, v, keys[0]);
      if r.1.Shown? {
        assert (keys + later)[1..] == keys[1..] + later;
        StoppedSessionIgnoresLaterKeys(book, w, r.0, r.0.pos, keys[1..], later);
      }
    }
  }

  /** `previous_line` always shows a window when the counters are in range, so a session that panics received a `next_line` key. */
  lemma {:induction false} PanicOnlyAfterFailedRead(book: seq<Byte>, w: nat, v: PagerState, progress: nat, keys: seq<HotKey>)
    requires w > 0 && v.pos <= |book| && Consistent(w, v)
    requires ReadSession(book, w, v, progress, keys).end == ReaderPanicked
    ensures exists i :: 0 <= i < |keys| && keys[i] == NextLine
    decreases |keys|
  {
    var r := Navigate(book, w, v, keys[0]);
    if keys[0] == PreviousLine {
      PreviousStepConsistent(book, w, v);
      PanicOnlyAfterFailedRead(book, w, r.0, r.0.pos, keys[1..]);
      var i :| 0 <= i < |keys[1..]| && keys[1..][i] == NextLine;
      assert keys[i + 1] == NextLine;
    }
  }

  /** One key of the loop, taken from its front: a stop, or a navigation step whose outcome decides the rest. */
  lemma SessionFront(book: seq<Byte>, w: nat, v: PagerState, progress: nat, keys: seq<HotKey>)
    requires w > 0 && v.pos <= |book| && keys != []
    ensures keys[0] == ExitReadMode ==> ReadSession(book, w, v, progress, keys) == Session(v, progress, StoppedByExit)
    ensures keys[0] == Unsupported ==> ReadSession(book, w, v, progress, keys) == Session(v, progress, StoppedByUnsupported)
    ensures keys[0] == NextLine || keys[0] == PreviousLine ==>
      var r := Navigate(book, w, v, keys[0]);
      ReadSession(book, w, v, progress, keys) == match r.1
        case Hung => Session(r.0, progress, ReaderHung)
        case Panicked => Session(r.0, progress, ReaderPanicked)
        case Shown(_) => ReadSession(book, w, r.0, r.0.pos, keys[1..])
  {
  }

  /**
   * `read_book`'s loop from the moment the book is open: `next_line` or
   * `previous_line` per navigation key, each followed by `update_progress`;
   * the exit key and an unsupported key end it.
   */
  method ReadBook(info: BookInfo, ctrl: BookCtrl, keys: seq<HotKey>) returns (end: SessionEnd)
    requires ctrl.Valid() && |ctrl.book| < 0x1_0000_0000_0000_0000
    modifies ctrl, info`progress, info`progressPercent
    ensures ctrl.Valid()
    ensures || (info.progress == old(info.progress) && info.progressPercent == old(info.progressPercent))
            || info.progressPercent == Quotient(info.progress, info.filesize)
    ensures Session(ctrl.State(), info.progress, end)
      == ReadSession(ctrl.book, ctrl.termWidth, old(ctrl.State()), old(info.progress), keys)
  {
    ghost var goal := ReadSession(ctrl.book, ctrl.termWidth, ctrl.State(), info.progress, keys);
    var i := 0;
    end := WaitingForKey;
    while i < |keys| && end == WaitingForKey
      invariant 0 <= i <= |keys| && ctrl.Valid()
      invariant || (info.progress == old(info.progress) && info.progressPercent == old(info.progressPercent))
                || info.progressPercent == Quotient(info.progress, info.filesize)
      invariant end == WaitingForKey ==> ReadSession(ctrl.book, ctrl.termWidth, ctrl.State(), info.progress, keys[i..]) == goal
      invariant end != WaitingForKey ==> Session(ctrl.State(), info.progress, end) == goal
      decreases |keys| - i, if end == WaitingForKey then 1 else 0
    {
      SessionFront(ctrl.book, ctrl.termWidth, ctrl.State(), info.progress, keys[i..]);
      assert keys[i..][0] == keys[i] && keys[i..][1..] == keys[i + 1..];
      var key := keys[i];
      if key == ExitReadMode {
        end := StoppedByExit;
      } else if key == Unsupported {
        end := StoppedByUnsupported;
      } else {
        var step := Step(ctrl, key);
        if step == Hung {
          end := ReaderHung;
        } else if step == Panicked {
          end := ReaderPanicked;
        } else {
          info.UpdateProgress(ctrl.pos);
          i := i + 1;
        }
      }
    }
  }

  /** The pager call a navigation key makes. */
  method Step(ctrl: BookCtrl, key: HotKey) returns (step: Step)
    requires ctrl.Valid() && (key == NextLine || key == PreviousLine)
    modifies ctrl
    ensures ctrl.Valid()
    ensures (ctrl.State(), step) == Navigate(ctrl.book, ctrl.termWidth, old(ctrl.State()), key)
  {
    if key == NextLine {
      step := ctrl.NextLine();
    } else {
      step := ctrl.PreviousLine();
    }
  }
}
