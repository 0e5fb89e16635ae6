/**
 * The ebook reader's saved reading position (`BookInfo` in
 * project/ebook_reader_cmdline). `cal_progress` turns a candidate byte
 * offset into the start of a UTF-8 character by probing the file forward in
 * windows of at most five bytes; `update_progress` stores the reader's
 * stream position.
 */
module EbookProgress {
  import opened Utf8

  /** Where `cal_progress` leaves the saved position. */
  datatype Resolution =
    | Found(start: nat)    // a window starting here begins with a well-formed character
    | NotFound             // every window was discarded whole (or the candidate is past the end): position 0
    | Underflow(len: nat)  // the file ends inside an undecodable window: `0 - len` overflows u64

  /**
   * The probe as windows: from q, a window whose bytes begin with a
   * well-formed character is accepted; an undecodable window of five bytes
   * is discarded and probing resumes just past it; a shorter undecodable
   * window at the end of the file leaves its bytes in the probe buffer.
   */
  function ResolveFrom(file: seq<Byte>, q: nat): (r: Resolution)
    ensures r.Found? ==> q <= r.start < |file|
    decreases |file| - q
  {
    if q >= |file| then NotFound
    else if LeadWidth(file[q..]) > 0 then Found(q)
    else if q + 5 <= |file| then ResolveFrom(file, q + 5)
    else Underflow(|file| - q)
  }

  /** An accepted window starts at or after the candidate, a whole number of five-byte windows on, with a character that lies inside the file. */
  lemma {:induction false} FoundIsCharacterStart(file: seq<Byte>, c: nat)
    requires ResolveFrom(file, c).Found?
    ensures var r := ResolveFrom(file, c).start;
      && c <= r < |file| && (r - c) % 5 == 0
      && 0 < LeadWidth(file[r..]) && IsChar(file[r..r + LeadWidth(file[r..])])
    decreases |file| - c
  {
    if LeadWidth(file[c..]) > 0 {
      LeadWidthIsChar(file[c..]);
      assert file[c..][..LeadWidth(file[c..])] == file[c..c + LeadWidth(file[c..])];
    } else {
      FoundIsCharacterStart(file, c + 5);
      var r := ResolveFrom(file, c).start;
      assert r - c == (r - (c + 5)) + 5;
    }
  }

  /** The accepted window is the first one: no earlier window start begins a character. */
  lemma {:induction false} FoundIsFirst(file: seq<Byte>, c: nat, q: nat)
    requires ResolveFrom(file, c).Found?
    requires c <= q < ResolveFrom(file, c).start && (q - c) % 5 == 0
    ensures LeadWidth(file[q..]) == 0
    decreases |file| - c
  {
    if q > c {
      assert (q - (c + 5)) % 5 == 0 by {
        assert q - c == (q - (c + 5)) + 5;
      }
      FoundIsFirst(file, c + 5, q);
    }
  }

  /**
   * Failing to find a character leaves the probe buffer holding the bytes
   * after the last whole window: it is empty exactly when the candidate is
   * past the end or the bytes from it are a whole number of windows.
   */
  lemma {:induction false} FailureLeavesRemainder(file: seq<Byte>, c: nat)
    requires !ResolveFrom(file, c).Found?
    ensures ResolveFrom(file, c) == NotFound <==> c >= |file| || (|file| - c) % 5 == 0
    ensures ResolveFrom(file, c).Underflow? ==>
      c < |file| && 0 < ResolveFrom(file, c).len < 5 && ResolveFrom(file, c).len == (|file| - c) % 5
    decreases |file| - c
  {
    if c < |file| && c + 5 <= |file| {
      FailureLeavesRemainder(file, c + 5);
      assert |file| - c == (|file| - (c + 5)) + 5;
    }
  }

  /** A candidate at or past the end of the file (100 percent) resolves to position 0 without probing. */
  lemma CandidatePastEnd(file: seq<Byte>, c: nat)
    requires c >= |file|
    ensures ResolveFrom(file, c) == NotFound
  {
  }

  /** Two continuation bytes with nothing else: the probe buffer keeps both and `0 - 2` underflows. */
  lemma TwoStrayBytesUnderflow()
    ensures ResolveFrom([0x80, 0x80], 0) == Underflow(2)
  {
    assert LeadWidth([0x80, 0x80]) == 0;
    assert [0x80, 0x80][0..] == [0x80, 0x80];
  }

  /** A candidate in the middle of "é" (0xC3 0xA9) followed by 5 stray bytes and "a": the probe discards one window and lands on "a". */
  lemma SkipsOneWindow()
    ensures ResolveFrom([0xC3, 0xA9, 0x80, 0x80, 0x80, 0x80, 0x61], 1) == Found(6)
  {
    var f: seq<Byte> := [0xC3, 0xA9, 0x80, 0x80, 0x80, 0x80, 0x61];
    assert f[1..][0] == 0xA9;
    assert f[6..] == [0x61];
  }

  /** A non-empty well-formed prefix of x means x starts with a character no longer than the prefix. */
  lemma WellFormedPrefixStartsChar(x: seq<Byte>, j: nat)
    requires 1 <= j <= |x| && WellFormed(x[..j])
    ensures 0 < LeadWidth(x) <= j
  {
    var y := x[..j];
    var k := LeadWidth(y);
    LeadWidthIsChar(y);
    assert y[..k] == x[..k];
    CharLengthUnique(x, k);
  }

  /** The first character of x is a well-formed string by itself. */
  lemma FirstCharWellFormed(x: seq<Byte>)
    requires LeadWidth(x) > 0
    ensures WellFormed(x[..LeadWidth(x)])
  {
    var k := LeadWidth(x);
    LeadWidthOfPrefix(x, k);
    assert x[..k][k..] == [];
  }

  /** The n bytes probed from q do not yet hold a whole first character, and may never. */
  predicate Undecided(file: seq<Byte>, q: nat, n: nat)
  {
    q + n <= |file| && !(0 < LeadWidth(file[q..]) <= n)
  }

  /** One more byte in the probe buffer: it becomes well formed exactly when it now holds the first character. */
  lemma WindowGrows(file: seq<Byte>, q: nat, n: nat)
    requires Undecided(file, q, n) && q + n < |file|
    ensures WellFormed(file[q..q + n + 1]) <==> LeadWidth(file[q..]) == n + 1
    ensures !WellFormed(file[q..q + n + 1]) ==> Undecided(file, q, n + 1)
  {
    var x := file[q..];
    assert x[..n + 1] == file[q..q + n + 1];
    if WellFormed(file[q..q + n + 1]) {
      WellFormedPrefixStartsChar(x, n + 1);
    }
    if LeadWidth(x) == n + 1 {
      FirstCharWellFormed(x);
    }
  }

  /** Once the probe buffer holds all the bytes from q to the end, an undecided window resolves to the buffer's length. */
  lemma UndecidedAtEnd(file: seq<Byte>, q: nat, n: nat)
    requires Undecided(file, q, n) && q + n == |file| && n < 5
    ensures ResolveFrom(file, q) == if n == 0 then NotFound else Underflow(n)
  {
  }

  /** A Rust `u64`. */
  type U64 = x: int | 0 <= x < 0x1_0000_0000_0000_0000

  /**
   * An `f32` as far as a quotient of two integers goes: a number, an
   * infinity (a positive number over zero) or NaN (zero over zero).
   * Rounding to single precision is not modelled.
   */
  datatype F32 = Finite(value: real) | Infinity | NaN

  /** `a as f32 / b as f32` for non-negative a and b. */
  function Quotient(a: nat, b: nat): (q: F32)
    ensures q.Finite? <==> b > 0
    ensures q.Finite? ==> q.value * b as real == a as real
    ensures b == 0 ==> (q == NaN <==> a == 0) && (q == Infinity <==> a > 0)
  {
    if b > 0 then Finite(a as real / b as real)
    else if a == 0 then NaN
    else Infinity
  }

  /**
   * A position inside a non-empty file gives a fraction between 0 and 1,
   * not a percentage between 0 and 100.
   */
  lemma PositionQuotientIsFraction(position: nat, size: nat)
    requires 0 < size && position <= size
    ensures Quotient(position, size).Finite?
    ensures 0.0 <= Quotient(position, size).value <= 1.0
    ensures Quotient(position, size).value == 1.0 <==> position == size
  {
    var v := Quotient(position, size).value;
    assert v * size as real == position as real;
  }

  /** `BookInfo`: the fields the reader keeps about a book. */
  class BookInfo {
    var title: string
    var author: string
    var path: string
    var progress: U64
    var filesize: U64
    var fileAvailable: bool
    var progressPercent: F32

    /** `BookInfo::new` once the file size and the saved position are known. */
    constructor (title: string, author: string, path: string, progress: U64, filesize: U64, progressPercent: real)
      ensures this.title == title && this.path == path && this.author == author
      ensures this.progress == progress && this.filesize == filesize && fileAvailable
      ensures this.progressPercent == Finite(progressPercent)
    {
      this.progressPercent := Finite(progressPercent);
      this.title := title;
      this.path := path;
      this.author := author;
      this.progress := progress;
      this.filesize := filesize;
      fileAvailable := true;
    }

    /**
     * `cal_progress` for the file's bytes and the candidate offset computed
     * from the percentage: the probe loop, then `file_start_seek - len`.
     * Returns true when that subtraction overflows, which panics.
     */
    method CalProgress(file: seq<Byte>, candidate: U64) returns (overflow: bool)
      requires |file| < 0x1_0000_0000_0000_0000
      modifies this`filesize, this`progress
      ensures filesize == |file|
      ensures overflow <==> ResolveFrom(file, candidate).Underflow?
      ensures match ResolveFrom(file, candidate)
        case Found(r) => progress == r
        case NotFound => progress == 0
        case Underflow(_) => progress == old(progress)
    {
      filesize := |file|;
      var seek: int := candidate;
      var check: seq<Byte> := [];
      var found := false;
      ghost var q: nat := candidate;
      while seek < filesize
        invariant filesize == |file| && progress == old(progress)
        invariant q <= seek && |check| <= 4
        invariant seek <= |file| ==> check == file[q..seek] && Undecided(file, q, |check|)
        invariant seek > |file| ==> check == [] && q == seek
        invariant ResolveFrom(file, q) == ResolveFrom(file, candidate)
        decreases filesize - seek
      {
        check, found, q := ProbeByte(file, q, seek, check);
        seek := seek + 1;
        if found {
          break;
        }
      }
      if !found {
        if seek <= |file| {
          UndecidedAtEnd(file, q, |check|);
        }
        seek := 0;
      }
      if seek < |check| {
        return true;
      }
      progress := seek - |check|;
      overflow := false;
    }

    /**
     * One pass of the probe loop: `read_exact` reads the byte at the stream
     * position, which is always `seek`, into the probe buffer.
     */
    static method ProbeByte(file: seq<Byte>, ghost q: nat, seek: nat, check: seq<Byte>) returns (check': seq<Byte>, found: bool, ghost q': nat)
      requires q <= seek < |file| && check == file[q..seek] && Undecided(file, q, |check|) && |check| <= 4
      ensures found ==> check' == file[q..seek + 1] && ResolveFrom(file, q) == Found(q)
      ensures !found ==> q' <= seek + 1 && |check'| <= 4 && check' == file[q'..seek + 1]
      ensures !found ==> Undecided(file, q', |check'|) && ResolveFrom(file, q') == ResolveFrom(file, q)
    {
      WindowGrows(file, q, |check|);
      check' := check + [file[seek]];
      assert check' == file[q..seek + 1];
      found := WellFormed(check');
      q' := q;
      if found {
        assert LeadWidth(file[q..]) > 0;
      } else if |check'| > 4 {
        assert LeadWidth(file[q..]) == 0 && q + 5 <= |file|;
        check' := [];
        q' := seek + 1;
      }
    }

    /**
     * `update_progress`: the saved position becomes the reader's stream
     * position, and `progress_percent` becomes that position over the file
     * size (a fraction, see PositionQuotientIsFraction).
     */
    method UpdateProgress(streamPosition: U64)
      modifies this`progress, this`progressPercent
      ensures progress == streamPosition
      ensures progressPercent == Quotient(streamPosition, filesize)
    {
      progress := streamPosition;
      progressPercent := Quotient(progress, filesize);
    }
  }
}
