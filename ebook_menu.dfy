/**
 * The ebook reader's two code tables: menu numbers typed at the main menu
 * and the key codes the reading loop reacts to.
 */
module EbookMenu {
  import Utf8

  /** A Rust `i32`. */
  type Int32 = x: int | -0x8000_0000 <= x < 0x8000_0000

  /** `EbookMenuFuncType`, whose discriminants run from 0 in declaration order. */
  datatype MenuFunc = CheckBook | AddBook | DeleteBook | ConfigBook | ReadBook | Exit | Unsupport

  /** `to_number`: the discriminant of the variant. */
  function ToNumber(f: MenuFunc): (n: Int32)
    ensures 0 <= n <= 6
    ensures n == 6 <==> f == Unsupport
  {
    match f
    case CheckBook => 0
    case AddBook => 1
    case DeleteBook => 2
    case ConfigBook => 3
    case ReadBook => 4
    case Exit => 5
    case Unsupport => 6
  }

  /** `from_number`: 0 to 5 name the menu entries, every other number is Unsupport. */
  function FromNumber(n: Int32): (f: MenuFunc)
    ensures 0 <= n <= 5 ==> ToNumber(f) == n
    ensures !(0 <= n <= 5) <==> f == Unsupport
  {
    match n
    case 0 => CheckBook
    case 1 => AddBook
    case 2 => DeleteBook
    case 3 => ConfigBook
    case 4 => ReadBook
    case 5 => Exit
    case _ => Unsupport
  }

  /** Every variant survives a trip through its number, Unsupport's 6 included through the default arm. */
  lemma NumberRoundTrip(f: MenuFunc)
    ensures FromNumber(ToNumber(f)) == f
  {
    match f
    case Unsupport => assert ToNumber(f) == 6;
    case _ =>
  }

  /** Distinct variants have distinct numbers. */
  lemma ToNumberInjective(f: MenuFunc, g: MenuFunc)
    requires ToNumber(f) == ToNumber(g)
    ensures f == g
  {
    NumberRoundTrip(f);
    NumberRoundTrip(g);
  }

  /** `EbookReaderHotKeyType`. */
  datatype HotKey = NextLine | PreviousLine | ExitReadMode | Unsupported

  /** `transform_keytype`: line feed, 'B' and backslash are the three bound keys. */
  function TransformKeytype(key: Utf8.Byte): (k: HotKey)
    ensures k == NextLine <==> key == 0x0A
    ensures k == PreviousLine <==> key == 66
    ensures k == ExitReadMode <==> key == 0x5C
  {
    match key
    case 0x0A => NextLine
    case 66 => PreviousLine
    case 0x5C => ExitReadMode
    case _ => Unsupported
  }
}
