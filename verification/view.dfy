/** The view (editor/view.rs): paints every row of the terminal. Row
    height/3 holds the centred welcome banner, row 0 (unless it is the banner
    row) says hello, and every other row shows a tilde. Rows are separated by
    "\r\n". The version string is a build-time constant and is passed in. */
module Views {
  import opened Usize
  import opened Bytes
  import opened Terminal

  const TILDE: seq<byte> := Ascii("~")
  const HELLO: seq<byte> := Ascii("Hello, world!")
  const CRLF: seq<byte> := Ascii("\r\n")
  const PRODUCT: seq<byte> := Ascii("Hecto -- version ")

  /** `format!("Hecto -- version {}", VERSION)` */
  function NameAndVersion(version: seq<byte>): (s: seq<byte>)
    ensures |s| == |PRODUCT| + |version|
    ensures s[..|PRODUCT|] == PRODUCT && s[|PRODUCT|..] == version
  {
    PRODUCT + version
  }

  /** The row printed by `draw_welcome_message` for a terminal `width`
      columns wide: a tilde, then enough spaces to centre the banner, then
      the banner. It is never truncated. */
  function WelcomeLine(width: usize, version: seq<byte>): (line: seq<byte>)
    requires |NameAndVersion(version)| <= USIZE_MAX
    ensures |line| > |NameAndVersion(version)|
    ensures var msg := NameAndVersion(version);
      && line[..1] == TILDE
      && line[|line| - |msg|..] == msg
      && forall i :: 1 <= i < |line| - |msg| ==> line[i] == SPACE
    ensures var len := |NameAndVersion(version)|;
      |line| <= width <==> width > len
    ensures var len := |NameAndVersion(version)|;
      width <= len ==> |line| == len + 1
    // centred: at most one more free column on the right than on the left
    ensures var len := |NameAndVersion(version)|;
      width > len + 1 ==> 0 <= (width - |line|) - (|line| - len) <= 1
  {
    var msg := NameAndVersion(version);
    var padding := SatSub(width, |msg|) / 2;
    TILDE + Spaces(SatSub(padding, 1)) + msg
  }

  /** What row `row` of a `height`-row screen shows */
  function RowText(row: usize, height: usize, width: usize, version: seq<byte>): (text: seq<byte>)
    requires row < height
    requires |NameAndVersion(version)| <= USIZE_MAX
    ensures row == height / 3 ==> text == WelcomeLine(width, version)
    ensures text == HELLO <==> row == 0 && height / 3 != 0
    ensures text == TILDE <==> row != 0 && row != height / 3
  {
    if height / 3 == row then
      var w := WelcomeLine(width, version);
      assert w[..1] == TILDE && TILDE[0] as int == '~' as int;
      assert HELLO[0] as int == 'H' as int;
      assert |w| > 1;
      w
    else if row == 0 then HELLO
    else TILDE
  }

  /** `View::render` on a terminal of the given size: every row is cleared and
      drawn, in order, and "\r\n" follows every row but the last. Row `r`
      occupies positions 3r (clear) and 3r+1 (text) of the trace, and its
      separator position 3r+2. */
  method Render(size: Size, version: seq<byte>) returns (trace: seq<Action>)
    requires |NameAndVersion(version)| <= USIZE_MAX
    ensures size.height == 0 ==> trace == []
    ensures size.height > 0 ==> |trace| == 3 * size.height - 1
    ensures forall row: usize :: row < size.height ==>
      && trace[3 * row] == ClearLine
      && trace[3 * row + 1] == Print(RowText(row, size.height, size.width, version))
      && (row + 1 < size.height ==> trace[3 * row + 2] == Print(CRLF))
  {
    var height := size.height;
    trace := [];
    var row: usize := 0;
    while row < height
      invariant row <= height
      invariant |trace| == if row == height && row > 0 then 3 * row - 1 else 3 * row
      invariant forall r: usize :: r < row ==>
        && trace[3 * r] == ClearLine
        && trace[3 * r + 1] == Print(RowText(r, height, size.width, version))
        && (r + 1 < height ==> trace[3 * r + 2] == Print(CRLF))
    {
      trace := trace + [ClearLine, Print(RowText(row, height, size.width, version))];
      if SatAdd(row, 1) < height {
        trace := trace + [Print(CRLF)];
      }
      row := row + 1;
    }
  }
}
