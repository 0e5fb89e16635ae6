/**
 * The ebook reader's pager (`BookCtrl` in project/ebook_reader_cmdline).
 * The book is the byte string of the file and the `BufReader` over it is a
 * stream position into that string. A line is read up to and including its
 * '\n', decoded as UTF-8 and trimmed; a line longer than the terminal is
 * shown one window of `term_width` characters at a time.
 */
module EbookPager {
  import opened Wrappers
  import opened Utf8
  import opened RustText

  function Min(a: int, b: int): int { if a <= b then a else b }

  // ---------------------------------------------------------------------
  // Reading lines forward

  /** Where `BufRead::read_line` from pos stops: just past the first '\n', or at the end of the book. */
  function LineEnd(book: seq<Byte>, pos: nat): (e: nat)
    requires pos <= |book|
    ensures pos <= e <= |book|
    ensures pos < |book| ==> pos < e
    ensures e == |book| || book[e - 1] == NEWLINE
    decreases |book| - pos
  {
    if pos == |book| then pos
    else if book[pos] == NEWLINE then pos + 1
    else LineEnd(book, pos + 1)
  }

  /** The read stops at the first '\n': none comes before the last byte it takes. */
  lemma {:induction false} LineEndIsFirstNewline(book: seq<Byte>, pos: nat)
    requires pos <= |book|
    ensures forall k :: pos <= k < LineEnd(book, pos) - 1 ==> book[k] != NEWLINE
    decreases |book| - pos
  {
    if pos < |book| && book[pos] != NEWLINE { LineEndIsFirstNewline(book, pos + 1); }
  }

  /** What one `read_line_raw` finds at pos. */
  datatype Load =
    | Text(end: nat, raw: seq<char>)   // a line with a non-blank character
    | Blank(end: nat)                  // a line of whitespace only; at the end of the book, the empty read
    | Undecodable(end: nat)            // bytes that are not UTF-8: `read_line` fails with InvalidData

  function LoadAt(book: seq<Byte>, pos: nat): (r: Load)
    requires pos <= |book|
    ensures pos <= r.end <= |book|
    ensures r.Text? ==> pos < r.end && Trim(r.raw) != []
    ensures r.Undecodable? ==> pos < r.end
    ensures r.Blank? && r.end == pos ==> pos == |book|
  {
    var e := LineEnd(book, pos);
    match Decode(book[pos..e])
    case None => Undecodable(e)
    case Some(cs) => if Trim(cs) != [] then Text(e, cs) else Blank(e)
  }

  /** Where `read_line(1)` ends up when it starts at pos. */
  datatype Forward =
    | LoadsText(end: nat, raw: seq<char>)  // the first non-blank line ahead
    | FailsAt(end: nat)                    // an undecodable line comes first
    | Spins                                // only blank lines lie ahead: the retry loop never exits

  function ForwardScan(book: seq<Byte>, pos: nat): (r: Forward)
    requires pos <= |book|
    ensures r.LoadsText? ==> pos < r.end <= |book| && Trim(r.raw) != []
    ensures r.FailsAt? ==> pos < r.end <= |book|
    decreases |book| - pos
  {
    match LoadAt(book, pos)
    case Text(e, cs) => LoadsText(e, cs)
    case Undecodable(e) => FailsAt(e)
    case Blank(e) => if e == |book| then Spins else ForwardScan(book, e)
  }

  /** The bytes are UTF-8 of whitespace only (so their lossy decoding trims to nothing). */
  predicate BlankBytes(s: seq<Byte>)
  {
    Decode(s).Some? && AllWhitespace(Decode(s).value)
  }

  /** At the end of the book a read finds the empty line, so the forward read spins there. */
  lemma SpinsAtEnd(book: seq<Byte>)
    ensures LoadAt(book, |book|) == Blank(|book|)
    ensures ForwardScan(book, |book|) == Spins
  {
    assert book[|book|..|book|] == [];
  }

  /**
   * The forward read never terminates exactly when the rest of the book is
   * UTF-8 whitespace: it returns only if a non-blank or an undecodable line
   * lies ahead.
   */
  lemma {:induction false} SpinsIffRestBlank(book: seq<Byte>, pos: nat)
    requires pos <= |book|
    ensures ForwardScan(book, pos) == Spins <==> BlankBytes(book[pos..])
    decreases |book| - pos
  {
    var e := LineEnd(book, pos);
    ForwardScanBlankLine(book, pos);
    if e == |book| {
      assert book[pos..e] == book[pos..];
    } else {
      SpinsIffRestBlank(book, e);
      BlankBytesSplit(book, pos, e);
    }
  }

  /** The forward read spins from pos exactly when the line there is blank and it spins from the end of that line, or that line ends the book. */
  lemma ForwardScanBlankLine(book: seq<Byte>, pos: nat)
    requires pos <= |book|
    ensures var e := LineEnd(book, pos);
      ForwardScan(book, pos) == Spins <==> BlankBytes(book[pos..e]) && (e == |book| || ForwardScan(book, e) == Spins)
  {
    var e := LineEnd(book, pos);
    var head := book[pos..e];
    if Decode(head).Some? {
      TrimEmpty(Decode(head).value);
    }
  }

  /** Blankness splits after a newline: the rest of the book from pos is blank exactly when both parts are. */
  lemma BlankBytesSplit(book: seq<Byte>, pos: nat, e: nat)
    requires pos <= |book| && e == LineEnd(book, pos) && e < |book|
    ensures BlankBytes(book[pos..]) <==> BlankBytes(book[pos..e]) && BlankBytes(book[e..])
  {
    var x, head, tail := book[pos..], book[pos..e], book[e..];
    assert x == head + tail;
    if BlankBytes(x) {
      assert x[..e - pos] == head && x[e - pos..] == tail;
      DecodeSplitAfterNewline(x, e - pos);
      AllWhitespaceAppend(Decode(head).value, Decode(tail).value);
    }
    if BlankBytes(head) && BlankBytes(tail) {
      DecodeAppend(head, tail);
      AllWhitespaceAppend(Decode(head).value, Decode(tail).value);
    }
  }



  // ---------------------------------------------------------------------
  // Reading lines backward

  /**
   * The inner `while new_position > 0` loop of `read_line(-1)`: reads the
   * byte before np, np - 1 down to 0, with `count` bytes read so far and
   * `nl` newlines counted. A '\n' counts only when it is not the first byte
   * read; the third one counted stops the scan there. The result is where the
   * scan stopped and whether it stopped at such a newline.
   */
  function ScanBack(book: seq<Byte>, np: nat, count: nat, nl: nat): (r: (nat, bool))
    requires np <= |book|
    ensures r.0 <= np && (np > 0 ==> r.0 < np)
    ensures r.1 ==> r.0 < |book| && book[r.0] == NEWLINE
    ensures !r.1 ==> r.0 == 0
    decreases np
  {
    if np == 0 then (0, false)
    else
      var j := np - 1;
      var counted := book[j] == NEWLINE && count > 0;
      if counted && nl > 1 then (j, true)
      else ScanBack(book, j, count + 1, if counted then nl + 1 else nl)
  }

  /** Number of '\n' bytes in book[a..b]. */
  function Newlines(book: seq<Byte>, a: nat, b: nat): nat
    requires a <= b <= |book|
    decreases b - a
  {
    if a == b then 0 else (if book[a] == NEWLINE then 1 else 0) + Newlines(book, a + 1, b)
  }

  /**
   * What the inner scan from s finds, stated without the scan: it stops at j
   * exactly when book[j] is a '\n' below s - 1 with two newlines between
   * them (the byte at s - 1 is never counted); when it runs down to offset 0
   * at most two were counted.
   */
  lemma ScanBackFindsThirdNewline(book: seq<Byte>, s: nat)
    requires 0 < s <= |book|
    ensures var (j, broke) := ScanBack(book, s, 0, 0);
      (broke ==> j < s - 1 && book[j] == NEWLINE && Newlines(book, j + 1, s - 1) == 2) &&
      (!broke ==> Newlines(book, 0, s - 1) <= 2)
  {
    ScanBackInvariant(book, s - 1, s);
  }

  lemma {:induction false} ScanBackInvariant(book: seq<Byte>, np: nat, s: nat)
    requires np < s <= |book|
    requires Newlines(book, np, s - 1) <= 2
    ensures var (j, broke) := ScanBack(book, np, s - np, Newlines(book, np, s - 1));
      (broke ==> j < s - 1 && book[j] == NEWLINE && Newlines(book, j + 1, s - 1) == 2) &&
      (!broke ==> Newlines(book, 0, s - 1) <= 2)
    decreases np
  {
    var nl := Newlines(book, np, s - 1);
    if np == 0 {
    } else {
      var j := np - 1;
      assert Newlines(book, j, s - 1) == (if book[j] == NEWLINE then 1 else 0) + nl;
      if book[j] == NEWLINE && nl > 1 {
      } else {
        ScanBackInvariant(book, j, s);
      }
    }
  }

  /** Where `read_line(-1)` puts the stream before it reads. */
  datatype Back =
    | LineAt(at: nat)   // a non-blank stretch was found: `read_line_raw` reads from `at`
    | ReachedStart      // offset 0 was reached with only blank bytes: the stream is left at 1

  /**
   * The outer `loop` of `read_line(-1)` from stream position s > 0. Each pass
   * scans back, collects the bytes after the stopping point (the stopping
   * '\n' itself excluded), and stops if they are not blank; otherwise it goes
   * on from the stopping point, which is strictly smaller.
   */
  function BackScan(book: seq<Byte>, s: nat): (r: Back)
    requires 0 < s <= |book|
    ensures r.LineAt? ==> 1 <= r.at <= s
    decreases s
  {
    var sc := ScanBack(book, s, 0, 0);
    var from := if sc.1 then sc.0 + 1 else 0;
    if !BlankBytes(book[from..s]) then LineAt(sc.0 + 1)
    else if sc.0 == 0 then ReachedStart
    else BackScan(book, sc.0)
  }

  /**
   * Byte 0 is never the start of a line read backward: the line is read from
   * just past a '\n', or from offset 1 when the scan ran down to the start of
   * the book.
   */
  lemma {:induction false} BackScanSkipsByteZero(book: seq<Byte>, s: nat)
    requires 0 < s <= |book|
    ensures BackScan(book, s).LineAt? ==>
      BackScan(book, s).at >= 1 && (BackScan(book, s).at > 1 ==> book[BackScan(book, s).at - 1] == NEWLINE)
    decreases s
  {
    var sc := ScanBack(book, s, 0, 0);
    var from := if sc.1 then sc.0 + 1 else 0;
    if BlankBytes(book[from..s]) && sc.0 != 0 {
      BackScanSkipsByteZero(book, sc.0);
    }
  }

  // ---------------------------------------------------------------------
  // Windows over a long line

  /** `w * cnt`: where window cnt of a line starts. */
  function Offset(w: nat, cnt: nat): nat
  {
    w * cnt
  }

  lemma OffsetSucc(w: nat, cnt: nat)
    ensures Offset(w, cnt + 1) == Offset(w, cnt) + w
  {
    assert w * (cnt + 1) == w * cnt + w;
  }

  /**
   * The window `show_line_by_term` shows: from w * cnt, w characters or up
   * to the end of the line, whichever comes first.
   */
  function Segment(line: seq<char>, w: nat, cnt: nat): (seg: seq<char>)
    requires Offset(w, cnt) <= |line|
    ensures |seg| == Min(w, |line| - Offset(w, cnt))
    ensures seg == line[Offset(w, cnt)..Offset(w, cnt) + |seg|]
  {
    var start := Offset(w, cnt);
    var end := if |line| > w + start then Offset(w, cnt + 1) else |line|;
    OffsetSucc(w, cnt);
    line[start..end]
  }

  /** The window counters of `next_line`: characters left to show and windows shown. */
  datatype Window = Window(remain: nat, cnt: nat)

  /** One `next_line` inside a line: `remain -= min(remain, w)` and `cnt += 1`. */
  function Advance(v: Window, w: nat): Window
  {
    Window(v.remain - Min(v.remain, w), v.cnt + 1)
  }

  /**
   * n `next_line` calls that stay inside the line: what they show, one window
   * after another, and the counters they leave; None when one of them would
   * load another line (remain is 0) or slice out of range.
   */
  function ForwardRun(line: seq<char>, w: nat, v: Window, n: nat): Option<(seq<char>, Window)>
    decreases n
  {
    if n == 0 then Some(([], v))
    else if v.remain == 0 || Offset(w, v.cnt) > |line| then None
    else
      match ForwardRun(line, w, Advance(v, w), n - 1)
      case None => None
      case Some(p) => Some((Segment(line, w, v.cnt) + p.0, p.1))
  }

  /** Number of windows a line of length r needs: ceil(r / w). */
  function WindowCount(r: nat, w: nat): nat
    requires w > 0
    decreases r
  {
    if r == 0 then 0 else 1 + WindowCount(r - Min(r, w), w)
  }

  /** The window count is the ceiling of r / w. */
  lemma {:induction false} WindowCountIsCeiling(r: nat, w: nat)
    requires w > 0
    ensures WindowCount(r, w) == (r + w - 1) / w
    decreases r
  {
    if r == 0 {
      Unique(w - 1, w, 0, w - 1);
    } else {
      WindowCountIsCeiling(r - Min(r, w), w);
      CeilStep(r, w, WindowCount(r - Min(r, w), w));
    }
  }

  lemma CeilStep(r: nat, w: nat, n: nat)
    requires w > 0 && r > 0 && n == (r - Min(r, w) + w - 1) / w
    ensures 1 + n == (r + w - 1) / w
  {
    if r <= w {
      DivOne(r + w - 1, w);
      Unique(w - 1, w, 0, w - 1);
    } else {
      DivShift(r + w - 1, w);
    }
  }

  lemma DivOne(x: nat, w: nat)
    requires 0 < w <= x < 2 * w
    ensures x / w == 1
  {
    Unique(x, w, 1, x - w);
  }

  lemma DivShift(x: nat, w: nat)
    requires w > 0 && x >= w
    ensures (x - w) / w + 1 == x / w
  {
    var q, r := (x - w) / w, (x - w) % w;
    assert x == (q + 1) * w + r;
    UniqueQuotient(x, w, q + 1, r);
  }

  lemma MulMono(k: int, w: int)
    requires k >= 1 && w > 0
    ensures k * w >= w
  {
  }

  lemma UniqueQuotient(y: int, w: int, q: int, r: int)
    requires w > 0 && y == q * w + r && 0 <= r < w
    ensures y / w == q && y % w == r
  {
    var q', r' := y / w, y % w;
    assert y == q' * w + r';
    if q > q' {
      MulMono(q - q', w);
    } else if q < q' {
      MulMono(q' - q, w);
    }
  }

  lemma Unique(y: int, w: int, q: int, r: int)
    requires w > 0 && y == q * w + r && 0 <= r < w
    ensures y / w == q
  {
    UniqueQuotient(y, w, q, r);
  }

  lemma ModAdd(x: nat, w: nat)
    requires w > 0
    ensures (x + w) % w == x % w
  {
    var q, r := x / w, x % w;
    assert x + w == (q + 1) * w + r;
    UniqueQuotient(x + w, w, q + 1, r);
  }

  lemma ModSub(x: nat, w: nat)
    requires w > 0 && x >= w
    ensures (x - w) % w == x % w
  {
    ModAdd(x - w, w);
  }

  /**
   * On a freshly loaded line (remain = its length, no window shown),
   * ceil(len / w) `next_line` calls show consecutive windows whose
   * concatenation is exactly the line, and leave nothing to show.
   */
  lemma NextLinesShowWholeLine(line: seq<char>, w: nat)
    requires w > 0
    ensures ForwardRun(line, w, Window(|line|, 0), WindowCount(|line|, w))
      == Some((line, Window(0, WindowCount(|line|, w))))
  {
    RunFrom(line, w, 0, 0);
  }

  lemma {:induction false} RunFrom(line: seq<char>, w: nat, k: nat, a: nat)
    requires w > 0 && a == Offset(w, k) && a <= |line|
    ensures ForwardRun(line, w, Window(|line| - a, k), WindowCount(|line| - a, w))
      == Some((line[a..], Window(0, k + WindowCount(|line| - a, w))))
    decreases |line| - a
  {
    var r := |line| - a;
    if r > w {
      OffsetSucc(w, k);
      RunFrom(line, w, k + 1, a + w);
      RunStep(line, w, k, a, a + w);
    } else if r > 0 {
      RunLast(line, w, k, a);
    } else {
      assert line[a..] == [];
    }
  }

  lemma RunStep(line: seq<char>, w: nat, k: nat, a: nat, b: nat)
    requires w > 0 && a == Offset(w, k) && b == a + w && b < |line|
    requires ForwardRun(line, w, Window(|line| - b, k + 1), WindowCount(|line| - b, w))
      == Some((line[b..], Window(0, k + 1 + WindowCount(|line| - b, w))))
    ensures ForwardRun(line, w, Window(|line| - a, k), WindowCount(|line| - a, w))
      == Some((line[a..], Window(0, k + WindowCount(|line| - a, w))))
  {
    var v := Window(|line| - a, k);
    var n := WindowCount(|line| - b, w);
    assert Min(|line| - a, w) == w;
    assert WindowCount(|line| - a, w) == 1 + n;
    assert Advance(v, w) == Window(|line| - b, k + 1);
    RunCons(line, w, v, n, (line[b..], Window(0, k + 1 + n)));
    assert Segment(line, w, k) == line[a..b];
    assert line[a..] == line[a..b] + line[b..];
  }

  /** Unfolds one step of ForwardRun. */
  lemma RunCons(line: seq<char>, w: nat, v: Window, n: nat, p: (seq<char>, Window))
    requires v.remain > 0 && Offset(w, v.cnt) <= |line|
    requires ForwardRun(line, w, Advance(v, w), n) == Some(p)
    ensures ForwardRun(line, w, v, n + 1) == Some((Segment(line, w, v.cnt) + p.0, p.1))
  {
  }

  lemma RunLast(line: seq<char>, w: nat, k: nat, a: nat)
    requires w > 0 && a == Offset(w, k) && a < |line| <= a + w
    ensures ForwardRun(line, w, Window(|line| - a, k), WindowCount(|line| - a, w))
      == Some((line[a..], Window(0, k + WindowCount(|line| - a, w))))
  {
    var r := |line| - a;
    assert WindowCount(r, w) == 1 by { assert WindowCount(0, w) == 0; }
    var v := Window(r, k);
    assert Advance(v, w) == Window(0, k + 1);
    RunCons(line, w, v, 0, ([], Window(0, k + 1)));
    var seg := Segment(line, w, k);
    assert seg + [] == line[a..];
  }

  /** The example of a 25-character line shown 10 at a time: [0,10), [10,20), [20,25). */
  lemma TwentyFiveCharactersInWindowsOfTen(line: seq<char>)
    requires |line| == 25
    ensures WindowCount(25, 10) == 3
    ensures Segment(line, 10, 0) == line[0..10]
    ensures Segment(line, 10, 1) == line[10..20]
    ensures Segment(line, 10, 2) == line[20..25]
    ensures ForwardRun(line, 10, Window(25, 0), 3) == Some((line, Window(0, 3)))
  {
    NextLinesShowWholeLine(line, 10);
  }

  /** The window `previous_line` shows after moving to another line: len / w when the line is longer than w, else 0. */
  function TailWindow(len: nat, w: nat): (c: nat)
    requires w > 0
    ensures Offset(w, c) <= len
  {
    if len > w then
      assert w * (len / w) <= len;
      len / w
    else 0
  }

  /**
   * The tail window is off by one when the length is a multiple of the
   * width: it starts at the end of the line and shows nothing. Otherwise it
   * is the last window a forward walk shows.
   */
  lemma TailWindowEmptyOnMultiple(line: seq<char>, w: nat)
    requires w > 0 && |line| > w
    ensures Segment(line, w, TailWindow(|line|, w)) == [] <==> |line| % w == 0
    ensures |line| % w != 0 ==> TailWindow(|line|, w) == WindowCount(|line|, w) - 1
  {
    var len := |line|;
    var q, r := len / w, len % w;
    assert len == q * w + r;
    assert |line| - Offset(w, q) == r;
    if r != 0 {
      UniqueQuotient(len + w - 1, w, q + 1, r - 1);
      WindowCountIsCeiling(len, w);
    }
  }

  // ---------------------------------------------------------------------
  // The pager's state and its steps

  /** The fields of `BookCtrl` other than the file and `term_width`; `pos` is the stream position. */
  datatype PagerState = PagerState(
    pos: nat,            // stream position of `book_content`
    preLineLen: nat,     // `pre_linelen`: bytes of the last window shown
    rawLine: seq<char>,  // `raw_line_content`
    line: seq<char>,     // `line_content`: the trimmed line
    remain: nat,         // `current_line_remain`
    windowCnt: nat,      // `display_window_cnt`
    atLineStart: bool)   // `at_line_start`

  /** What `read_line_raw` returns. */
  datatype RawRead = Loaded | EmptyLine | InvalidData

  /** What `read_line` returns; `Hangs` stands for the retry loop that never returns. */
  datatype ReadOutcome = ReadOk | EmptyLineError | InvalidDataError | Hangs

  /** What `next_line` or `previous_line` does on the terminal. */
  datatype Step = Shown(text: seq<char>) | Hung | Panicked

  /** A successful `read_line_raw`: the trimmed line becomes the current line, all of it left to show from window 0. */
  function LoadLine(v: PagerState, e: nat, raw: seq<char>): (u: PagerState)
  {
    v.(pos := e, rawLine := raw, line := Trim(raw), remain := |Trim(raw)|, windowCnt := 0, atLineStart := false)
  }

  /**
   * `read_line_raw`: reads through the next '\n', appending the decoded text to
   * `rawLine`. A non-blank result becomes the current line with all of it
   * still to show; a blank one clears `rawLine` and changes nothing else;
   * undecodable bytes are consumed and change nothing else.
   */
  function RawReadStep(book: seq<Byte>, v: PagerState): (r: (PagerState, RawRead))
    requires v.pos <= |book|
    ensures r.0.pos == LineEnd(book, v.pos)
  {
    var e := LineEnd(book, v.pos);
    match Decode(book[v.pos..e])
    case None => (v.(pos := e), InvalidData)
    case Some(cs) =>
      var raw := v.rawLine + cs;
      if Trim(raw) != [] then
        (LoadLine(v, e, raw), Loaded)
      else (v.(pos := e, rawLine := []), EmptyLine)
  }

  /** `read_line(1)`: clears `rawLine` and reads until a non-blank line loads or a read fails. */
  function ForwardRead(book: seq<Byte>, v: PagerState): (r: (PagerState, ReadOutcome))
    requires v.pos <= |book|
    ensures r.0.pos <= |book|
  {
    var u := v.(rawLine := []);
    match ForwardScan(book, v.pos)
    case LoadsText(e, cs) =>
      (LoadLine(u, e, cs), ReadOk)
    case FailsAt(e) => (u.(pos := e), InvalidDataError)
    case Spins => (u.(pos := |book|), Hangs)
  }

  /**
   * `read_line(-1)`: clears `rawLine`; at position 0 it does nothing more;
   * otherwise it scans back and, when the scan found a non-blank stretch,
   * reads a line from where it stopped.
   */
  function BackwardRead(book: seq<Byte>, v: PagerState): (r: (PagerState, ReadOutcome))
    requires v.pos <= |book|
    ensures r.0.pos <= |book|
    ensures r.1 != Hangs
  {
    var u := v.(rawLine := []);
    if v.pos == 0 then (u, ReadOk)
    else match BackScan(book, v.pos)
      case ReachedStart => (u.(pos := 1), ReadOk)
      case LineAt(p) => ReadBackAt(book, u, p)
  }

  /** The raw read that ends `read_line(-1)` once the scan found a line starting at p. */
  function ReadBackAt(book: seq<Byte>, u: PagerState, p: nat): (r: (PagerState, ReadOutcome))
    requires p <= |book|
    ensures r.0.pos <= |book|
    ensures r.1 != Hangs
  {
    var raw := RawReadStep(book, u.(pos := p));
    (raw.0, RawOutcome(raw.1))
  }

  /** `read_line_raw()?`: its errors become `read_line`'s. */
  function RawOutcome(raw: RawRead): ReadOutcome
  {
    match raw
    case Loaded => ReadOk
    case EmptyLine => EmptyLineError
    case InvalidData => InvalidDataError
  }

  /** `show_line_by_term` followed by `display_window_cnt += 1`; slicing past the line panics. */
  function ShowStep(w: nat, v: PagerState): (r: (PagerState, Step))
    ensures r.1 != Hung
    ensures r.1.Shown? <==> Offset(w, v.windowCnt) <= |v.line|
  {
    if Offset(w, v.windowCnt) > |v.line| then (v, Panicked)
    else
      var seg := Segment(v.line, w, v.windowCnt);
      (v.(preLineLen := EncodedLength(seg), windowCnt := v.windowCnt + 1), Shown(seg))
  }

  /** `next_line` takes the window it is about to show off `remain`. */
  function TakeWindow(w: nat, v: PagerState): (u: PagerState)
    ensures u.remain == v.remain - Min(v.remain, w)
  {
    v.(remain := if v.remain > w then v.remain - w else v.remain - v.remain)
  }

  /** `next_line`: load a line when nothing is left to show, take a window off `remain`, show it. */
  function NextStep(book: seq<Byte>, w: nat, v: PagerState): (r: (PagerState, Step))
    requires v.pos <= |book|
    ensures r.0.pos <= |book|
  {
    var read := if v.remain == 0 then ForwardRead(book, v) else (v, ReadOk);
    if read.1 == Hangs then (read.0, Hung)
    else ShowStep(w, TakeWindow(w, read.0))
  }

  /**
   * `previous_line`: inside a line, step the window back one (two down, one
   * up) and remember reaching window 0; otherwise read backward and show the
   * tail window of whatever line is then current.
   */
  function PreviousStep(book: seq<Byte>, w: nat, v: PagerState): (r: (PagerState, Step))
    requires w > 0 && v.pos <= |book|
    ensures r.0.pos <= |book|
  {
    if v.windowCnt > 1 && !v.atLineStart then ShowStep(w, StepBack(w, v))
    else ShowStep(w, TailOfPrevious(book, w, v))
  }

  /** Two windows back (remembering when that reaches window 0), and the window's characters are to be shown again. */
  function StepBack(w: nat, v: PagerState): (u: PagerState)
    requires v.windowCnt > 1
  {
    var c := v.windowCnt - 2;
    v.(windowCnt := c, atLineStart := c == 0 || v.atLineStart, remain := v.remain + w)
  }

  /** The backward read, then the counters set to the last window of whatever line is then current, nothing left to show. */
  function TailOfPrevious(book: seq<Byte>, w: nat, v: PagerState): (u: PagerState)
    requires w > 0 && v.pos <= |book|
    ensures u.pos <= |book|
  {
    var b := BackwardRead(book, v).0;
    b.(windowCnt := TailWindow(|b.line|, w), remain := 0)
  }

  /**
   * How the window counters stay within the line: once a window has been
   * shown it started inside the line, and characters left to show are
   * either exactly the rest of the line or a whole number of windows that
   * end no further than one window past it.
   */
  predicate WindowsInRange(len: nat, w: nat, cnt: nat, remain: nat)
  {
    w > 0 &&
    (cnt > 0 ==> Offset(w, cnt - 1) <= len) &&
    (remain > 0 ==> Offset(w, cnt) + remain <= len + w && (Offset(w, cnt) + remain == len || WholeWindows(remain, w)))
  }

  /** x is a whole number of windows of w characters. */
  predicate WholeWindows(x: nat, w: nat)
    requires w > 0
    decreases x
  {
    x == 0 || (x >= w && WholeWindows(x - w, w))
  }

  /** WholeWindows is divisibility. */
  lemma {:induction false} WholeWindowsIsDivisibility(x: nat, w: nat)
    requires w > 0
    ensures WholeWindows(x, w) <==> x % w == 0
    decreases x
  {
    if x >= w {
      WholeWindowsIsDivisibility(x - w, w);
      ModSub(x, w);
    } else if x > 0 {
      UniqueQuotient(x, w, 0, x);
    }
  }

  predicate Consistent(w: nat, v: PagerState)
  {
    WindowsInRange(|v.line|, w, v.windowCnt, v.remain)
  }

  /** While characters are left, the next window starts inside the line. */
  lemma RemainingWindowInRange(len: nat, w: nat, cnt: nat, remain: nat)
    requires WindowsInRange(len, w, cnt, remain) && remain > 0
    ensures Offset(w, cnt) <= len
  {
    if Offset(w, cnt) + remain != len {
      assert remain >= w;
    }
  }

  /** Taking a shown window off `remain` keeps the counters in range. */
  lemma AdvanceInRange(len: nat, w: nat, cnt: nat, remain: nat)
    requires WindowsInRange(len, w, cnt, remain) && Offset(w, cnt) <= len
    ensures WindowsInRange(len, w, cnt + 1, remain - Min(remain, w))
  {
    OffsetSucc(w, cnt);
  }

  /** Stepping the window back inside a line keeps the counters in range. */
  lemma StepBackInRange(len: nat, w: nat, cnt: nat, remain: nat)
    requires WindowsInRange(len, w, cnt, remain) && cnt > 1
    ensures Offset(w, cnt - 2) <= len
    ensures WindowsInRange(len, w, cnt - 1, remain + w)
  {
    OffsetSucc(w, cnt - 2);
    OffsetSucc(w, cnt - 1);
    assert WholeWindows(w, w) by { assert WholeWindows(0, w); }
  }

  /** The tail window starts inside the line and leaves nothing to show. */
  lemma TailInRange(len: nat, w: nat)
    requires w > 0
    ensures WindowsInRange(len, w, TailWindow(len, w) + 1, 0)
  {
  }

  /** A fresh line keeps the counters in range. */
  lemma LoadInRange(len: nat, w: nat)
    requires w > 0
    ensures WindowsInRange(len, w, 0, len)
  {
  }

  /** `next_line` after a read that returned: the window step. */
  lemma NextStepShows(book: seq<Byte>, w: nat, v: PagerState, read: (PagerState, ReadOutcome))
    requires v.pos <= |book|
    requires read == (if v.remain == 0 then ForwardRead(book, v) else (v, ReadOk)) && read.1 != Hangs
    ensures NextStep(book, w, v) == ShowStep(w, TakeWindow(w, read.0))
  {
  }

  /** `next_line` after a forward read that hangs. */
  lemma NextStepHangs(book: seq<Byte>, w: nat, v: PagerState)
    requires v.pos <= |book| && v.remain == 0 && ForwardRead(book, v).1 == Hangs
    ensures NextStep(book, w, v) == (ForwardRead(book, v).0, Hung)
  {
  }

  /** `next_line` keeps the counters in range. */
  lemma NextStepConsistent(book: seq<Byte>, w: nat, v: PagerState)
    requires v.pos <= |book| && Consistent(w, v)
    ensures Consistent(w, NextStep(book, w, v).0)
  {
    var read := if v.remain == 0 then ForwardRead(book, v) else (v, ReadOk);
    var u := read.0;
    if read.1 != Hangs {
      if v.remain == 0 {
        match ForwardScan(book, v.pos)
        case LoadsText(_, _) => LoadInRange(|u.line|, w);
        case FailsAt(_) => assert u.line == v.line && u.windowCnt == v.windowCnt && u.remain == 0;
      }
      assert Consistent(w, u);
      var u1 := TakeWindow(w, u);
      var r := ShowStep(w, u1);
      assert NextStep(book, w, v) == r;
      if r.1.Shown? {
        AdvanceInRange(|u.line|, w, u.windowCnt, u.remain);
        assert r.0.line == u.line && r.0.windowCnt == u.windowCnt + 1 && r.0.remain == u1.remain;
      } else {
        if u.remain > 0 {
          RemainingWindowInRange(|u.line|, w, u.windowCnt, u.remain);
        }
        assert r.0 == u1;
      }
    }
  }

  /**
   * `next_line` panics only after a failed forward read: with characters
   * left, or after a line loaded, the window it slices is inside the line.
   */
  lemma NextStepPanicsOnlyAfterFailedRead(book: seq<Byte>, w: nat, v: PagerState)
    requires v.pos <= |book| && Consistent(w, v)
    ensures NextStep(book, w, v).1 == Panicked ==> v.remain == 0 && ForwardScan(book, v.pos).FailsAt?
    ensures NextStep(book, w, v).1 == Hung <==> v.remain == 0 && ForwardScan(book, v.pos) == Spins
  {
    if v.remain > 0 {
      RemainingWindowInRange(|v.line|, w, v.windowCnt, v.remain);
    }
  }

  /** `previous_line` keeps the counters in range and always shows a window. */
  lemma PreviousStepConsistent(book: seq<Byte>, w: nat, v: PagerState)
    requires w > 0 && v.pos <= |book| && Consistent(w, v)
    ensures Consistent(w, PreviousStep(book, w, v).0)
    ensures PreviousStep(book, w, v).1.Shown?
  {
    if v.windowCnt > 1 && !v.atLineStart {
      StepBackInRange(|v.line|, w, v.windowCnt, v.remain);
    } else {
      TailInRange(|BackwardRead(book, v).0.line|, w);
    }
  }

  /** Inside a line `next_line` touches neither the stream nor the line: it advances the window counters and shows the window they passed. */
  lemma NextStepInsideLine(book: seq<Byte>, w: nat, v: PagerState)
    requires v.pos <= |book| && v.remain > 0 && Offset(w, v.windowCnt) <= |v.line|
    ensures var (u, step) := NextStep(book, w, v);
      u.pos == v.pos && u.line == v.line && u.atLineStart == v.atLineStart &&
      Window(u.remain, u.windowCnt) == Advance(Window(v.remain, v.windowCnt), w) &&
      step == Shown(Segment(v.line, w, v.windowCnt))
  {
  }

  /**
   * Once `previous_line` reaches window 0 of a line, `at_line_start` stays
   * set through `next_line` calls inside that line, so the next
   * `previous_line` from any later window reads backward instead of stepping
   * the window back.
   */
  lemma AtLineStartPersists(book: seq<Byte>, w: nat, v: PagerState)
    requires v.pos <= |book| && v.atLineStart && v.remain > 0
    ensures NextStep(book, w, v).0.atLineStart
  {
  }

  /** Position 0 has nothing before it: the backward read leaves everything but `rawLine` as it was. */
  lemma BackwardAtStart(book: seq<Byte>, v: PagerState)
    requires v.pos == 0
    ensures BackwardRead(book, v) == (v.(rawLine := []), ReadOk)
  {
  }

  /**
   * One pass of the backward scan from s, given where the inner scan
   * stopped (np) and whether the bytes it collected are blank: the line it
   * found, the start of the book, or the next pass from np.
   */
  lemma PassStep(book: seq<Byte>, s: nat, np: nat, blank: bool)
    requires 0 < s <= |book| && np == ScanBack(book, s, 0, 0).0
    requires blank == BlankBytes(book[(if ScanBack(book, s, 0, 0).1 then np + 1 else 0)..s])
    ensures !blank ==> BackScan(book, s) == LineAt(np + 1)
    ensures blank && np == 0 ==> BackScan(book, s) == ReachedStart
    ensures blank && np > 0 ==> BackScan(book, s) == BackScan(book, np)
  {
    var from := if ScanBack(book, s, 0, 0).1 then np + 1 else 0;
    assert BackScan(book, s) ==
      if !BlankBytes(book[from..s]) then LineAt(np + 1)
      else if np == 0 then ReachedStart
      else BackScan(book, np);
  }

  /** A scan that found a line ends the backward read with a raw read from where the line starts. */
  lemma BackwardReadLoads(book: seq<Byte>, v: PagerState, p: nat)
    requires 0 < v.pos <= |book| && BackScan(book, v.pos) == LineAt(p)
    ensures p <= |book|
    ensures BackwardRead(book, v) == ReadBackAt(book, v.(rawLine := []), p)
  {
  }

  /** The book "A\nB\nC\nD\n". */
  const FOUR_LINES: seq<Byte> := [0x41, 0x0A, 0x42, 0x0A, 0x43, 0x0A, 0x44, 0x0A]

  /**
   * A concrete backward read that skips a line. In "A\nB\nC\nD\n", right
   * after "D" was read forward the stream is at offset 8. The scan does not
   * count the '\n' that ends "D", counts those ending "C" and "B", and
   * stops at the one ending "A", so `read_line(-1)` loads "B": the line "C"
   * just before the current one is never shown, and the stream is left
   * after "B\n".
   */
  lemma BackwardReadSkipsALine(v: PagerState)
    requires v.pos == 8
    ensures BackScan(FOUR_LINES, 8) == LineAt(2)
    ensures var r := BackwardRead(FOUR_LINES, v);
      r.1 == ReadOk && r.0.line == ['B'] && r.0.pos == 4
  {
    FourLinesScanStopsAfterA();
    BackwardReadLoads(FOUR_LINES, v, 2);
    FourLinesReadsB(v.(rawLine := []));
  }

  /** The scan from offset 8 of FOUR_LINES stops at the '\n' after "A". */
  lemma FourLinesScanStopsAfterA()
    ensures BackScan(FOUR_LINES, 8) == LineAt(2)
  {
    var book := FOUR_LINES;
    assert ScanBack(book, 2, 6, 2) == (1, true);
    assert ScanBack(book, 4, 4, 1) == ScanBack(book, 2, 6, 2);
    assert ScanBack(book, 6, 2, 0) == ScanBack(book, 4, 4, 1);
    assert ScanBack(book, 8, 0, 0) == ScanBack(book, 6, 2, 0);
    AsciiLetterNotBlank(book[2..8]);
  }

  /** The raw read from offset 2 of FOUR_LINES loads the line "B". */
  lemma FourLinesReadsB(u: PagerState)
    requires u.rawLine == []
    ensures var r := ReadBackAt(FOUR_LINES, u, 2);
      r.1 == ReadOk && r.0.line == ['B'] && r.0.pos == 4
  {
    var book := FOUR_LINES;
    assert LineEnd(book, 2) == 4;
    assert book[2..4] == [0x42, 0x0A];
    DecodeLetterNewline(0x42);
    TrimLetterNewline('B');
    assert u.rawLine + ['B', '\n'] == ['B', '\n'];
  }

  /** A string that starts with an ASCII letter is not blank. */
  lemma AsciiLetterNotBlank(s: seq<Byte>)
    requires s != [] && 0x41 <= s[0] <= 0x5A
    ensures !BlankBytes(s)
  {
    assert LeadWidth(s) == 1 && s[..1] == [s[0]];
    if Decode(s).Some? {
      assert Decode(s).value[0] == s[0] as char;
    }
  }

  /** An ASCII letter followed by '\n' decodes to those two characters. */
  lemma DecodeLetterNewline(b: Byte)
    requires 0x41 <= b <= 0x5A
    ensures Decode([b, 0x0A]) == Some([b as char, '\n'])
  {
    var s: seq<Byte> := [b, 0x0A];
    assert LeadWidth(s) == 1 && s[..1] == [b] && s[1..] == [0x0A];
    var t: seq<Byte> := [0x0A];
    assert LeadWidth(t) == 1 && t[..1] == [0x0A] && t[1..] == [];
    assert Decode(t[1..]) == Some([]);
    assert ScalarValue(t[..1]) == 0x0A && ScalarValue(s[..1]) == b;
    assert [ScalarValue(t[..1]) as char] + [] == ['\n'];
    assert Decode(t) == Some(['\n']);
    assert s[1..] == t;
    assert [ScalarValue(s[..1]) as char] + ['\n'] == [b as char, '\n'];
  }

  /** Trimming a letter followed by '\n' leaves the letter. */
  lemma TrimLetterNewline(c: char)
    requires 'A' <= c <= 'Z'
    ensures Trim([c, '\n']) == [c]
  {
    var s := [c, '\n'];
    assert SkipBlank(s, 0) == 0;
    assert ContentEnd(s, 2) == ContentEnd(s, 1) == 1;
  }

  /** A scan that reached the start of the book ends the backward read at stream position 1. */
  lemma BackwardReadReachesStart(book: seq<Byte>, v: PagerState)
    requires 0 < v.pos <= |book| && BackScan(book, v.pos) == ReachedStart
    ensures BackwardRead(book, v) == (v.(rawLine := [], pos := 1), ReadOk)
  {
  }

  /** With `rawLine` empty, a raw read does what LoadAt finds at the stream position. */
  lemma RawReadIsLoad(book: seq<Byte>, v: PagerState)
    requires v.pos <= |book| && v.rawLine == []
    ensures var l := LoadAt(book, v.pos);
      && (l.Text? ==> RawReadStep(book, v) == (LoadLine(v, l.end, l.raw), Loaded))
      && (l.Undecodable? ==> RawReadStep(book, v) == (v.(pos := l.end), InvalidData))
      && (l.Blank? ==> RawReadStep(book, v) == (v.(pos := l.end), EmptyLine))
  {
    var e := LineEnd(book, v.pos);
    match Decode(book[v.pos..e])
    case None =>
    case Some(cs) =>
      assert v.rawLine + cs == cs;
  }

  /** The forward read in terms of the first line it loads. */
  lemma ForwardReadByLoad(book: seq<Byte>, v: PagerState)
    requires v.pos <= |book| && v.rawLine == []
    ensures var l := LoadAt(book, v.pos);
      && (l.Text? ==> ForwardRead(book, v) == (LoadLine(v, l.end, l.raw), ReadOk))
      && (l.Undecodable? ==> ForwardRead(book, v) == (v.(pos := l.end), InvalidDataError))
      && (l.Blank? && l.end == |book| ==> ForwardRead(book, v) == (v.(pos := |book|), Hangs))
      && (l.Blank? && l.end < |book| ==> ForwardRead(book, v) == ForwardRead(book, v.(pos := l.end)))
  {
    var l := LoadAt(book, v.pos);
    assert v.(rawLine := []) == v;
    if l.Blank? && l.end < |book| {
      assert ForwardScan(book, v.pos) == ForwardScan(book, l.end);
      var u := v.(pos := l.end);
      match ForwardScan(book, l.end)
      case LoadsText(e, cs) =>
        assert ForwardRead(book, u).0 == ForwardRead(book, v).0;
      case FailsAt(e) =>
      case Spins =>
    }
  }

  /** One raw read with `rawLine` empty either completes the forward read or leaves what remains of it unchanged. */
  lemma RawReadThenScan(book: seq<Byte>, v: PagerState)
    requires v.pos <= |book| && v.rawLine == []
    ensures var r := RawReadStep(book, v);
      && (r.1 == Loaded ==> (r.0, ReadOk) == ForwardRead(book, v))
      && (r.1 == InvalidData ==> (r.0.(rawLine := []), InvalidDataError) == ForwardRead(book, v))
      && (r.1 == EmptyLine && r.0.pos == |book| ==> (r.0, Hangs) == ForwardRead(book, v))
      && (r.1 == EmptyLine && r.0.pos < |book| ==>
            v.pos < r.0.pos && r.0 == v.(pos := r.0.pos) && ForwardRead(book, r.0) == ForwardRead(book, v))
  {
    RawReadIsLoad(book, v);
    ForwardReadByLoad(book, v);
  }

  // ---------------------------------------------------------------------
  // `BookCtrl`

  function Reverse(s: seq<Byte>): (r: seq<Byte>)
    ensures |r| == |s|
  {
    if s == [] then [] else Reverse(s[1..]) + [s[0]]
  }

  lemma {:induction false} ReverseAppend(a: seq<Byte>, b: seq<Byte>)
    ensures Reverse(a + b) == Reverse(b) + Reverse(a)
  {
    if a == [] {
      assert a + b == b;
    } else {
      assert (a + b)[1..] == a[1..] + b;
      ReverseAppend(a[1..], b);
    }
  }

  lemma {:induction false} ReverseReverse(s: seq<Byte>)
    ensures Reverse(Reverse(s)) == s
  {
    if s != [] {
      ReverseAppend(Reverse(s[1..]), [s[0]]);
      ReverseReverse(s[1..]);
      assert Reverse([s[0]]) == [s[0]];
    }
  }

  class BookCtrl {
    const book: seq<Byte>
    const termWidth: nat
    var pos: nat
    var preLineLen: nat
    var rawLine: seq<char>
    var line: seq<char>
    var remain: nat
    var windowCnt: nat
    var atLineStart: bool

    function State(): PagerState
      reads this
    {
      PagerState(pos, preLineLen, rawLine, line, remain, windowCnt, atLineStart)
    }

    ghost predicate Valid()
      reads this
    {
      pos <= |book| && WindowsInRange(|line|, termWidth, windowCnt, remain)
    }

    /** `BookCtrl::new`: the stream seeks to the saved progress; nothing is loaded yet. */
    constructor (book: seq<Byte>, termWidth: nat, progress: nat)
      requires 0 < termWidth && progress <= |book|
      ensures Valid()
      ensures this.book == book && this.termWidth == termWidth
      ensures State() == PagerState(progress, 0, [], [], 0, 0, false)
    {
      this.book := book;
      this.termWidth := termWidth;
      pos := progress;
      preLineLen := 0;
      rawLine := [];
      line := [];
      remain := 0;
      windowCnt := 0;
      atLineStart := false;
    }

    method ReadLineRaw() returns (r: RawRead)
      requires Valid()
      modifies this
      ensures (State(), r) == RawReadStep(book, old(State()))
      ensures Valid()
    {
      var e := LineEnd(book, pos);
      var bytes := book[pos..e];
      pos := e;
      match Decode(bytes)
      case None =>
        r := InvalidData;
      case Some(cs) =>
        rawLine := rawLine + cs;
        if Trim(rawLine) != [] {
          line := Trim(rawLine);
          remain := |line|;
          windowCnt := 0;
          atLineStart := false;
          r := Loaded;
        } else {
          rawLine := [];
          r := EmptyLine;
        }
    }

    /** `read_line(1)`. */
    method ReadLineForward() returns (r: ReadOutcome)
      requires Valid()
      modifies this
      ensures (State(), r) == ForwardRead(book, old(State()))
      ensures Valid()
    {
      rawLine := [];
      while true
        invariant Valid() && rawLine == []
        invariant ForwardRead(book, State()) == ForwardRead(book, old(State()))
        decreases |book| - pos
      {
        ghost var v := State();
        RawReadThenScan(book, v);
        var raw := ReadLineRaw();
        if raw == Loaded {
          return ReadOk;
        } else if raw == InvalidData {
          rawLine := [];
          return InvalidDataError;
        } else if pos == |book| {
          // every further read at the end of the stream is this same empty line
          return Hangs;
        }
      }
    }

    /** `read_line(-1)`. */
    method ReadLineBackward() returns (r: ReadOutcome)
      requires Valid()
      modifies this
      ensures (State(), r) == BackwardRead(book, old(State()))
      ensures Valid()
    {
      rawLine := [];
      var np := pos;
      if np == 0 {
        return ReadOk;
      }
      while true
        invariant 0 < np <= |book| && pos <= |book| && rawLine == []
        invariant BackScan(book, np) == BackScan(book, old(pos))
        invariant line == old(line) && remain == old(remain) && windowCnt == old(windowCnt)
        invariant atLineStart == old(atLineStart) && preLineLen == old(preLineLen)
        decreases np
      {
        ghost var s := np;
        var blank;
        np, blank := ScanPass(np);
        PassStep(book, s, np, blank);
        if !blank {
          BackwardReadLoads(book, old(State()), np + 1);
          assert State() == old(State()).(rawLine := []).(pos := np + 1);
          var raw := ReadLineRaw();
          return RawOutcome(raw);
        } else if np == 0 {
          BackwardReadReachesStart(book, old(State()));
          return ReadOk;
        }
      }
    }

    /**
     * One pass of the outer loop of `read_line(-1)` from s: the inner scan,
     * then the reversed buffer's lossy decoding trimmed and tested for
     * emptiness, which is blankness of the collected bytes.
     */
    method ScanPass(s: nat) returns (np: nat, blank: bool)
      requires 0 < s <= |book|
      modifies this`pos
      ensures np == ScanBack(book, s, 0, 0).0 && pos == np + 1
      ensures blank == BlankBytes(book[(if ScanBack(book, s, 0, 0).1 then np + 1 else 0)..s])
    {
      ghost var from := if ScanBack(book, s, 0, 0).1 then ScanBack(book, s, 0, 0).0 + 1 else 0;
      var buffer;
      np, buffer := ScanBackBytes(s);
      ReverseReverse(book[from..s]);
      buffer := Reverse(buffer);
      blank := BlankBytes(buffer);
    }

    /**
     * The inner `while new_position > 0` loop of `read_line(-1)`: reads the
     * bytes before s one at a time, pushing each onto the buffer, until the
     * scan stops; the stream is left just past the last byte read.
     */
    method ScanBackBytes(s: nat) returns (np: nat, buffer: seq<Byte>)
      requires 0 < s <= |book|
      modifies this`pos
      ensures np == ScanBack(book, s, 0, 0).0 && pos == np + 1
      ensures buffer == Reverse(book[(if ScanBack(book, s, 0, 0).1 then np + 1 else 0)..s])
    {
      np := s;
      buffer := [];
      var charCount: nat := 0;
      var newlines: nat := 0;
      while np > 0
        invariant np <= s && charCount == s - np
        invariant buffer == Reverse(book[np..s])
        invariant ScanBack(book, np, charCount, newlines) == ScanBack(book, s, 0, 0)
        invariant np < s ==> pos == np + 1
        decreases np
      {
        np := np - 1;
        pos := np;        // seek to new_position
        var b := book[pos];
        pos := pos + 1;   // read_exact of one byte
        if b == NEWLINE && charCount > 0 {
          if newlines > 1 {
            return;
          }
          newlines := newlines + 1;
        }
        assert book[np..s] == [book[np]] + book[np + 1..s];
        buffer := buffer + [b];
        charCount := charCount + 1;
      }
    }

    /** `show_line_by_term`'s window arithmetic; None where the slice would panic. */
    method ShowLineByTerm() returns (shown: Option<seq<char>>)
      modifies this`preLineLen
      ensures var n := ShowStep(termWidth, old(State()));
        (if n.1.Shown? then shown == Some(n.1.text) else shown == None) && preLineLen == n.0.preLineLen
    {
      var start := termWidth * windowCnt;
      var end := if |line| > termWidth + start then termWidth * (windowCnt + 1) else |line|;
      OffsetSucc(termWidth, windowCnt);
      if start > end {
        return None;
      }
      var seg := line[start..end];
      preLineLen := EncodedLength(seg);
      shown := Some(seg);
    }

    /** `show_line_by_term` followed by `display_window_cnt += 1`, as both `next_line` and `previous_line` end. */
    method ShowWindow() returns (step: Step)
      modifies this`preLineLen, this`windowCnt
      ensures (State(), step) == ShowStep(termWidth, old(State()))
    {
      var shown := ShowLineByTerm();
      if shown.None? {
        step := Panicked;
      } else {
        windowCnt := windowCnt + 1;
        step := Shown(shown.value);
      }
    }

    /** `next_line`. */
    method NextLine() returns (step: Step)
      requires Valid()
      modifies this
      ensures (State(), step) == NextStep(book, termWidth, old(State()))
      ensures Valid()
    {
      ghost var v := State();
      NextStepConsistent(book, termWidth, v);
      ghost var read := (v, ReadOk);
      var r := ReadOk;
      if remain == 0 {
        r := ReadLineForward();
        read := (State(), r);
      }
      if r == Hangs {
        NextStepHangs(book, termWidth, v);
        step := Hung;
      } else {
        remain := if remain > termWidth then remain - termWidth else remain - remain;
        NextStepShows(book, termWidth, v, read);
        assert State() == TakeWindow(termWidth, read.0);
        step := ShowWindow();
      }
    }

    /** The first branch of `previous_line` up to the window step. */
    method StepWindowBack()
      requires windowCnt > 1
      modifies this`windowCnt, this`atLineStart, this`remain
      ensures State() == StepBack(termWidth, old(State()))
    {
      windowCnt := windowCnt - 2;
      if windowCnt == 0 {
        atLineStart := true;
      }
      remain := remain + termWidth;
    }

    /** The second branch of `previous_line` up to the window step. */
    method ReadPreviousTail()
      requires Valid()
      modifies this
      ensures State() == TailOfPrevious(book, termWidth, old(State()))
    {
      var _ := ReadLineBackward();
      windowCnt := if |line| > termWidth then |line| / termWidth else 0;
      remain := 0;
    }

    /** `previous_line`. */
    method PreviousLine() returns (step: Step)
      requires Valid()
      modifies this
      ensures (State(), step) == PreviousStep(book, termWidth, old(State()))
      ensures Valid()
    {
      ghost var v := State();
      PreviousStepConsistent(book, termWidth, v);
      if windowCnt > 1 && atLineStart == false {
        StepWindowBack();
      } else {
        ReadPreviousTail();
      }
      ghost var n := ShowStep(termWidth, State());
      assert PreviousStep(book, termWidth, v) == n;
      step := ShowWindow();
      assert (State(), step) == n;
    }
  }
}
