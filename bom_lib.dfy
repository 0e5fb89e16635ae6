/**
 * The parts of project/bom_manage_lib that do not touch the database: the
 * check that a data file is an SQLite database, and the `Element` setters.
 */
module BomLib {
  import opened Wrappers
  import opened Utf8

  /** What the file system reports about the data file's path. */
  datatype DataFile =
    | Missing                        // `fs::metadata` fails
    | Unopenable                     // it exists but `File::open` fails
    | Readable(bytes: seq<Byte>)     // its contents

  const FILE_MISSING: string := "文件不存在"
  const OPEN_FAILED: string := "文件打开失败"
  const FILE_INVALID: string := "文件无效"
  const NOT_A_DATABASE: string := "不是数据库文件"

  /** The 16-byte magic that starts every SQLite database file. */
  const SQLITE_MAGIC: seq<Byte> :=
    [0x53, 0x51, 0x4c, 0x69, 0x74, 0x65, 0x20, 0x66,
     0x6f, 0x72, 0x6d, 0x61, 0x74, 0x20, 0x33, 0x00]

  /** The bytes of an ASCII string. */
  function Ascii(s: string): (b: seq<Byte>)
    requires forall i :: 0 <= i < |s| ==> s[i] < 128 as char
    ensures |b| == |s| && forall i :: 0 <= i < |s| ==> b[i] == s[i] as int
  {
    seq(|s|, i requires 0 <= i < |s| => s[i] as int)
  }

  /** The magic is the header string of section 1.3 of the SQLite Database File Format: "SQLite format 3" followed by a NUL byte. */
  lemma MagicIsHeaderString()
    ensures SQLITE_MAGIC == Ascii("SQLite format 3") + [0]
  {
    var h := Ascii("SQLite format 3") + [0];
    assert |h| == 16;
    forall i | 0 <= i < 16 ensures h[i] == SQLITE_MAGIC[i] {
      if i < 15 {
        assert h[i] == "SQLite format 3"[i] as int;
      }
    }
  }

  /** `check_datafile`, once the file system has answered: the first 16 bytes must be the SQLite magic. */
  function CheckDatafile(file: DataFile): (r: Result<(), string>)
  {
    match file
    case Missing => Err(FILE_MISSING)
    case Unopenable => Err(OPEN_FAILED)
    case Readable(bytes) =>
      if |bytes| < 16 then Err(FILE_INVALID)
      else if bytes[..16] == SQLITE_MAGIC then Ok(())
      else Err(NOT_A_DATABASE)
  }

  /**
   * The file is accepted exactly when it can be read and starts with the
   * SQLite magic; each way of failing has its own message.
   */
  lemma CheckDatafileAccepts(file: DataFile)
    ensures CheckDatafile(file).Ok? <==> file.Readable? && |file.bytes| >= 16 && file.bytes[..16] == SQLITE_MAGIC
    ensures file == Missing <==> CheckDatafile(file) == Err(FILE_MISSING)
    ensures file == Unopenable <==> CheckDatafile(file) == Err(OPEN_FAILED)
    ensures CheckDatafile(file) == Err(FILE_INVALID) <==> file.Readable? && |file.bytes| < 16
  {
  }

  /** Bytes after the header never matter. */
  lemma OnlyHeaderMatters(header: seq<Byte>, rest: seq<Byte>, other: seq<Byte>)
    requires |header| == 16
    ensures CheckDatafile(Readable(header + rest)) == CheckDatafile(Readable(header + other))
  {
    assert (header + rest)[..16] == header == (header + other)[..16];
  }

  /** A rust `u32`. */
  type U32 = x: int | 0 <= x < 0x1_0000_0000

  /** `ElementType`. */
  datatype ElementType = Resistor | Diode | Transistor | Capacitor | Inductor

  /** `ElementStatus`. */
  datatype ElementStatus = ALot | Normal | Shortage

  /** `Element`: a component kept in the bill of materials. */
  class Element {
    var describe: string
    var model: string
    var number: U32
    var elementType: ElementType
    var state: ElementStatus

    constructor (describe: string, model: string, number: U32, elementType: ElementType, state: ElementStatus)
      ensures this.describe == describe && this.model == model && this.number == number
      ensures this.elementType == elementType && this.state == state
    {
      this.describe := describe;
      this.model := model;
      this.number := number;
      this.elementType := elementType;
      this.state := state;
    }

    /** `modify_describe`: replaces the description and hands back the same element for chaining. */
    method ModifyDescribe(describe: string) returns (self: Element)
      modifies this`describe
      ensures self == this && this.describe == describe
    {
      this.describe := describe;
      self := this;
    }

    /** `modify_number`: replaces the count and hands back the same element for chaining. */
    method ModifyNumber(number: U32) returns (self: Element)
      modifies this`number
      ensures self == this && this.number == number
    {
      this.number := number;
      self := this;
    }
  }

  /** Chained setters touch only their own fields: the result of `modify_describe(d).modify_number(n)`. */
  method ModifyBoth(e: Element, d: string, n: U32) returns (self: Element)
    modifies e
    ensures self == e && e.describe == d && e.number == n
    ensures e.model == old(e.model) && e.elementType == old(e.elementType) && e.state == old(e.state)
  {
    var x := e.ModifyDescribe(d);
    self := x.ModifyNumber(n);
  }
}
