// Model of the console helpers in src/kernel/printk.c: the 8-digit hex
// encoder `itoh`, the format loop of `vprintk` that expands a format string
// into a 1024-byte buffer, and the loop that copies that buffer to VGA text
// memory while moving `cursor_pos`.
module Printk {
  import opened Bits

  /** `unsigned int` on the kernel's target. */
  type U32 = x: nat | x < 0x1_0000_0000

  const HexDigits: seq<char> := "0123456789ABCDEF"

  const ScreenWidth: nat := 80
  const ScreenHeight: nat := 25
  /** Bytes per screen row: a character byte and an attribute byte per cell. */
  const RowBytes: nat := ScreenWidth * 2
  /** Bytes of the whole 80x25 screen. */
  const ScreenBytes: nat := ScreenWidth * 2 * ScreenHeight
  /** The attribute byte written with every character: light grey on black. */
  const WhiteOnBlack: char := 7 as char
  /** Size of `vprintk`'s local buffer. */
  const BufferSize: nat := 1024

  // ---------------------------------------------------------------------------
  // itoh
  // ---------------------------------------------------------------------------

  /** `num >> 4k`: num without its low k nibbles. */
  function Shifted(num: nat, k: nat): nat {
    DivRecompose(num, Pow2(4 * k));
    num / Pow2(4 * k)
  }

  /** Nibble k of num (bits 4k to 4k+3), i.e. `(num >> 4k) & 0xF`. */
  function Nibble(num: nat, k: nat): (d: nat)
    ensures d < 16
  {
    Shifted(num, k) % 16
  }

  /** The eight hex digits of num, most significant first: character i is nibble 7 - i. */
  function Hex8(num: nat): (s: seq<char>)
    ensures |s| == 8
    ensures forall i :: 0 <= i < 8 ==> s[i] in HexDigits
  {
    seq(8, i requires 0 <= i < 8 => HexDigits[Nibble(num, 7 - i)])
  }

  /** The value of a hex digit, its position in "0123456789ABCDEF". */
  function DigitValue(c: char): (v: nat)
    requires c in HexDigits
    ensures v < 16 && HexDigits[v] == c
  {
    var v :| 0 <= v < 16 && HexDigits[v] == c;
    v
  }

  /** The value of a string of hex digits read in base 16. */
  function ParseHex(s: seq<char>): nat
    requires forall i :: 0 <= i < |s| ==> s[i] in HexDigits
  {
    if s == [] then 0 else ParseHex(s[..|s| - 1]) * 16 + DigitValue(s[|s| - 1])
  }

  /**
   * `itoh(num, buffer)`: fills buffer[7] down to buffer[0] with the hex digit
   * of the low nibble while shifting num right by 4, then terminates the
   * string at buffer[8]. Nothing past index 8 is touched.
   */
  method Itoh(num: U32, buffer: array<char>)
    requires buffer.Length >= 9
    modifies buffer
    ensures buffer[..9] == Hex8(num) + ['\0']
    ensures buffer[9..] == old(buffer[9..])
  {
    var n: nat := num;
    var i: int := 7;
    while i >= 0
      invariant -1 <= i <= 7
      invariant n == Shifted(num, 7 - i)
      invariant forall j :: i < j < 8 ==> buffer[j] == Hex8(num)[j]
      invariant forall j :: 8 <= j < buffer.Length ==> buffer[j] == old(buffer[j])
    {
      buffer[i] := HexDigits[n % 16];
      NextNibble(num, 7 - i);
      n := n / 16;
      i := i - 1;
    }
    buffer[8] := '\0';
  }

  /** `num >> 4(k+1) == (num >> 4k) >> 4`. */
  lemma NextNibble(num: nat, k: nat)
    ensures Shifted(num, k + 1) == Shifted(num, k) / 16
  {
    Pow2Values();
    Pow2Add(4 * k, 4);
    assert 4 * (k + 1) == 4 * k + 4;
    DivDiv(num, Pow2(4 * k), 16);
  }

  /** The digits of HexDigits are distinct, so DigitValue inverts indexing. */
  lemma DigitOfNibble(d: nat)
    requires d < 16
    ensures DigitValue(HexDigits[d]) == d
  {
    var v := DigitValue(HexDigits[d]);
    assert HexDigits[v] == HexDigits[d];
  }

  /** ParseHex reads its last digit as the lowest one. */
  lemma ParseHexLast(s: seq<char>, k: nat)
    requires 0 < k <= |s|
    requires forall i :: 0 <= i < |s| ==> s[i] in HexDigits
    ensures ParseHex(s[..k]) == ParseHex(s[..k - 1]) * 16 + DigitValue(s[k - 1])
  {
    assert s[..k][..k - 1] == s[..k - 1];
  }

  /** Appending the digit x % 16 to the digits of x / 16 gives the digits of x. */
  lemma ParseDigitStep(s: seq<char>, k: nat, x: nat)
    requires 0 < k <= |s|
    requires forall i :: 0 <= i < |s| ==> s[i] in HexDigits
    requires ParseHex(s[..k - 1]) == x / 16
    requires DigitValue(s[k - 1]) == x % 16
    ensures ParseHex(s[..k]) == x
  {
    ParseHexLast(s, k);
    DivRecompose(x, 16);
  }

  /**
   * Eight digits whose i-th digit is nibble 7 - i of num: the first k of
   * them read num without its low 8 - k nibbles.
   */
  lemma {:induction false} ParseDigitsPrefix(s: seq<char>, num: U32, k: nat)
    requires |s| == 8 && k <= 8
    requires forall i :: 0 <= i < 8 ==> s[i] in HexDigits
    requires forall i :: 0 <= i < 8 ==> DigitValue(s[i]) == Nibble(num, 7 - i)
    ensures ParseHex(s[..k]) == Shifted(num, 8 - k)
  {
    if k == 0 {
      assert Shifted(num, 8 - k) == 0 by {
        Pow2Values();
        assert 4 * (8 - k) == 32;
        DivModUnique(num, Pow2(32), 0, num);
      }
      assert s[..0] == [];
    } else {
      var x: nat := Shifted(num, 8 - k);
      assert ParseHex(s[..k - 1]) == x / 16 by {
        ParseDigitsPrefix(s, num, k - 1);
        assert 8 - (k - 1) == (8 - k) + 1;
        NextNibble(num, 8 - k);
      }
      assert DigitValue(s[k - 1]) == x % 16 by {
        assert 7 - (k - 1) == 8 - k;
      }
      ParseDigitStep(s, k, x);
    }
  }

  /** Reading the first k digits of Hex8(num) gives num without its low 8 - k nibbles. */
  lemma ParseHexPrefix(num: U32, k: nat)
    requires k <= 8
    ensures ParseHex(Hex8(num)[..k]) == Shifted(num, 8 - k)
  {
    var s := Hex8(num);
    forall i | 0 <= i < 8
      ensures DigitValue(s[i]) == Nibble(num, 7 - i)
    {
      DigitOfNibble(Nibble(num, 7 - i));
    }
    ParseDigitsPrefix(s, num, k);
  }

  /** Round trip: the eight digits itoh writes read back in base 16 as num. */
  lemma ParseHexRoundTrip(num: U32)
    ensures ParseHex(Hex8(num)) == num
  {
    ParseHexPrefix(num, 8);
    assert Hex8(num)[..8] == Hex8(num);
  }

  // ---------------------------------------------------------------------------
  // The format loop of vprintk
  // ---------------------------------------------------------------------------

  /** The conversions whose text vprintk obtains from `snprintf`. */
  predicate IsConversion(c: char) {
    c == 'd' || c == 'x' || c == 'p' || c == 's'
  }

  /**
   * The format can be scanned: it is NUL-terminated, no '%' stands right
   * before the terminator (the loop would step over it and read past the
   * string), and there is an argument's text for every conversion.
   */
  predicate WellFormed(fmt: seq<char>, pieces: seq<seq<char>>)
    decreases |fmt|
  {
    && |fmt| > 0
    && (fmt[0] == '\0'
        || (fmt[0] != '%' && WellFormed(fmt[1..], pieces))
        || (fmt[0] == '%' && |fmt| > 1 && fmt[1] != '\0' &&
            if IsConversion(fmt[1]) then |pieces| > 0 && WellFormed(fmt[2..], pieces[1..])
            else WellFormed(fmt[2..], pieces)))
  }

  /**
   * The text vprintk's format loop produces. pieces[i] is the text `snprintf`
   * produces for the i-th `%d`, `%x`, `%p` or `%s` and its argument. It holds
   * no NUL when the argument texts hold none, so the display loop, which stops
   * at the first NUL, prints all of it.
   */
  function Expand(fmt: seq<char>, pieces: seq<seq<char>>): (r: seq<char>)
    requires WellFormed(fmt, pieces)
    ensures (forall i :: 0 <= i < |pieces| ==> '\0' !in pieces[i]) ==> '\0' !in r
    decreases |fmt|
  {
    if fmt[0] == '\0' then []
    else if fmt[0] != '%' then [fmt[0]] + Expand(fmt[1..], pieces)
    else if IsConversion(fmt[1]) then
      assert forall i :: 0 <= i < |pieces[1..]| ==> pieces[1..][i] == pieces[i + 1];
      pieces[0] + Expand(fmt[2..], pieces[1..])
    else if fmt[1] == '%' then ['%'] + Expand(fmt[2..], pieces)
    else ['%', fmt[1]] + Expand(fmt[2..], pieces)
  }

  /**
   * The length of the C string in fmt. `CString.Len` measures strings of
   * bytes; format strings here are `seq<char>`, so it is stated again over
   * characters.
   */
  function Length(fmt: seq<char>): (n: nat)
    requires '\0' in fmt
    ensures n < |fmt| && fmt[n] == '\0' && '\0' !in fmt[..n]
  {
    if fmt[0] == '\0' then 0
    else
      assert fmt == [fmt[0]] + fmt[1..];
      var n := Length(fmt[1..]) + 1;
      assert fmt[..n] == [fmt[0]] + fmt[1..][..n - 1];
      n
  }

  /** A format with no '%' is copied unchanged up to its terminator. */
  lemma {:induction false} ExpandLiteral(fmt: seq<char>, pieces: seq<seq<char>>)
    requires '\0' in fmt && '%' !in fmt[..Length(fmt)]
    ensures WellFormed(fmt, pieces) && Expand(fmt, pieces) == fmt[..Length(fmt)]
    decreases |fmt|
  {
    if fmt[0] != '\0' {
      assert fmt[0] == fmt[..Length(fmt)][0];
      assert fmt[1..][..Length(fmt[1..])] == fmt[..Length(fmt)][1..];
      ExpandLiteral(fmt[1..], pieces);
    }
  }

  /** What `snprintf` does to the buffer here: piece is written from `at` on. */
  method CopyText(buffer: array<char>, at: nat, piece: seq<char>)
    requires at + |piece| <= buffer.Length
    modifies buffer
    ensures buffer[..at + |piece|] == old(buffer[..at]) + piece
  {
    var j := 0;
    while j < |piece|
      invariant 0 <= j <= |piece|
      invariant buffer[..at + j] == old(buffer[..at]) + piece[..j]
    {
      buffer[at + j] := piece[j];
      j := j + 1;
      assert buffer[..at + j] == buffer[..at + j - 1] + [piece[j - 1]];
    }
    assert piece[..j] == piece;
  }

  /**
   * The format loop of `vprintk`: walks the format with `fmt_ptr`, appending to
   * the local 1024-byte buffer at `buf_ptr`, then terminates the buffer. The
   * buffer is unchecked in the C code, so the caller must keep the output
   * below 1024 characters.
   */
  method Render(format: seq<char>, pieces: seq<seq<char>>) returns (text: seq<char>)
    requires WellFormed(format, pieces) && |Expand(format, pieces)| < BufferSize
    ensures text == Expand(format, pieces) + ['\0']
  {
    var buffer := new char[BufferSize];
    var bufPtr: nat := 0;
    var fmtPtr: nat := 0;
    var arg: nat := 0;
    while format[fmtPtr] != '\0'
      invariant fmtPtr < |format| && arg <= |pieces|
      invariant WellFormed(format[fmtPtr..], pieces[arg..])
      invariant buffer.Length == BufferSize
      invariant bufPtr + |Expand(format[fmtPtr..], pieces[arg..])| == |Expand(format, pieces)|
      invariant buffer[..bufPtr] + Expand(format[fmtPtr..], pieces[arg..]) == Expand(format, pieces)
      decreases |format| - fmtPtr
    {
      ghost var done := buffer[..bufPtr];
      var out, used, taken := NextItem(format, pieces, fmtPtr, arg);
      ghost var rest := Expand(format[fmtPtr + used..], pieces[arg + taken..]);
      assert done + Expand(format[fmtPtr..], pieces[arg..]) == (done + out) + rest;
      CopyText(buffer, bufPtr, out);
      bufPtr := bufPtr + |out|;
      fmtPtr := fmtPtr + used;
      arg := arg + taken;
      assert buffer[..bufPtr] == done + out;
    }
    assert buffer[..bufPtr] == Expand(format, pieces);
    buffer[bufPtr] := '\0';
    text := buffer[..bufPtr + 1];
    assert text[..bufPtr] == Expand(format, pieces);
  }

  /**
   * One pass of the format loop over the item at fmt_ptr f: the text it
   * appends to the buffer, how far fmt_ptr moves and how many arguments it
   * consumes.
   */
  method NextItem(format: seq<char>, pieces: seq<seq<char>>, f: nat, a: nat)
    returns (out: seq<char>, used: nat, taken: nat)
    requires f < |format| && a <= |pieces|
    requires WellFormed(format[f..], pieces[a..]) && format[f] != '\0'
    ensures 1 <= used <= 2 && taken <= 1
    ensures f + used < |format| && a + taken <= |pieces|
    ensures WellFormed(format[f + used..], pieces[a + taken..])
    ensures Expand(format[f..], pieces[a..]) == out + Expand(format[f + used..], pieces[a + taken..])
  {
    if format[f] == '%' {
      ExpandStep(format[f..], pieces[a..]);
      var c := format[f + 1];
      if IsConversion(c) {
        // snprintf(buf_ptr, ...) writes the argument's text; buf_ptr moves past it.
        out, used, taken := pieces[a], 2, 1;
      } else if c == '%' {
        out, used, taken := ['%'], 2, 0;
      } else {
        out, used, taken := ['%', c], 2, 0;
      }
    } else {
      out, used, taken := [format[f]], 1, 0;
    }
    Advance(format, pieces, f, a, out, used, taken);
  }

  /**
   * The loop of Render moves past one item: given the text the branches
   * produce for the item at position f, the expansion still owed is that
   * text followed by the expansion of the rest.
   */
  lemma Advance(format: seq<char>, pieces: seq<seq<char>>, f: nat, a: nat,
                out: seq<char>, used: nat, taken: nat)
    requires f < |format| && a <= |pieces|
    requires WellFormed(format[f..], pieces[a..]) && format[f] != '\0'
    requires format[f] != '%' ==> out == [format[f]] && used == 1 && taken == 0
    requires format[f] == '%' ==> f + 1 < |format| && used == 2
    requires format[f] == '%' && f + 1 < |format| && IsConversion(format[f + 1]) ==>
      a < |pieces| && out == pieces[a] && taken == 1
    requires format[f] == '%' && f + 1 < |format| && format[f + 1] == '%' ==> out == ['%'] && taken == 0
    requires format[f] == '%' && f + 1 < |format| && !IsConversion(format[f + 1]) && format[f + 1] != '%' ==>
      out == ['%', format[f + 1]] && taken == 0
    ensures 1 <= used <= 2 && taken <= 1
    ensures f + used < |format| && a + taken <= |pieces|
    ensures WellFormed(format[f + used..], pieces[a + taken..])
    ensures Expand(format[f..], pieces[a..]) == out + Expand(format[f + used..], pieces[a + taken..])
  {
    var rest, args := format[f..], pieces[a..];
    assert rest[used..] == format[f + used..] && args[taken..] == pieces[a + taken..];
    assert WellFormed(rest[used..], args[taken..]) && Expand(rest, args) == out + Expand(rest[used..], args[taken..]) by {
      ExpandStep(rest, args);
      if taken == 1 {
        assert args[0] == pieces[a];
      }
    }
  }

  /** One step of the format loop: the text of the format's first item, and how much format and argument text it consumes. */
  lemma ExpandStep(fmt: seq<char>, pieces: seq<seq<char>>)
    requires WellFormed(fmt, pieces) && fmt[0] != '\0'
    ensures fmt[0] != '%' ==>
      WellFormed(fmt[1..], pieces) && Expand(fmt, pieces) == [fmt[0]] + Expand(fmt[1..], pieces)
    ensures fmt[0] == '%' ==> |fmt| > 2
    ensures fmt[0] == '%' && IsConversion(fmt[1]) ==>
      |pieces| > 0 && WellFormed(fmt[2..], pieces[1..])
      && Expand(fmt, pieces) == pieces[0] + Expand(fmt[2..], pieces[1..])
    ensures fmt[0] == '%' && fmt[1] == '%' ==>
      WellFormed(fmt[2..], pieces) && Expand(fmt, pieces) == ['%'] + Expand(fmt[2..], pieces)
    ensures fmt[0] == '%' && !IsConversion(fmt[1]) && fmt[1] != '%' ==>
      WellFormed(fmt[2..], pieces) && Expand(fmt, pieces) == ['%', fmt[1]] + Expand(fmt[2..], pieces)
  {
    if fmt[0] == '%' {
      assert WellFormed(fmt[2..], if IsConversion(fmt[1]) then pieces[1..] else pieces);
    }
  }

  // ---------------------------------------------------------------------------
  // The cursor and the text-mode screen
  // ---------------------------------------------------------------------------

  /** `cursor_pos` and the bytes written to video memory, by offset from 0xb8000. */
  datatype Screen = Screen(cursor: U32, video: map<nat, char>)

  /**
   * A newline moves the cursor to the start of the next 160-byte row. The
   * `unsigned int` product wraps modulo 2^32; below that, the new position
   * is a row start strictly beyond the old one and at most one row further.
   * Nothing bounds it by the screen: on the last row it becomes 4000.
   */
  function NewLine(cursor: U32): (r: U32)
    ensures r % 2 == 0
    ensures (cursor / RowBytes + 1) * RowBytes < Word32 ==>
      r % RowBytes == 0 && cursor < r <= cursor + RowBytes
  {
    NextRowStart(cursor, cursor / RowBytes, cursor % RowBytes);
    ((cursor / RowBytes + 1) * RowBytes) % Word32
  }

  /** With cursor == 160 x + rem, the next row start 160 (x + 1) is a row start past cursor, and even modulo 2^32. */
  lemma NextRowStart(cursor: nat, x: nat, rem: nat)
    requires cursor == x * RowBytes + rem && rem < RowBytes
    ensures ((x + 1) * RowBytes) % Word32 % 2 == 0
    ensures (x + 1) * RowBytes < Word32 ==>
      ((x + 1) * RowBytes) % Word32 == (x + 1) * RowBytes
      && (x + 1) * RowBytes % RowBytes == 0
      && cursor < (x + 1) * RowBytes <= cursor + RowBytes
  {
    var v := (x + 1) * RowBytes;
    assert v == 2 * ((x + 1) * ScreenWidth);
    DivRecompose(v, Word32);
    var q := v / Word32;
    assert v % Word32 == 2 * ((x + 1) * ScreenWidth) - 2 * (q * (Word32 / 2));
    DivModUnique(v % Word32, 2, (x + 1) * ScreenWidth - q * (Word32 / 2), 0);
    if v < Word32 {
      DivModUnique(v, Word32, 0, v);
      DivModUnique(v, RowBytes, x + 1, 0);
    }
  }

  /**
   * One character of the display loop. A newline only moves the cursor.
   * Any other character is stored at `cursor_pos` with the attribute byte
   * after it, and the cursor advances by 2, wrapping to 0 at the end of the
   * screen, so afterwards it is on the screen.
   */
  function Put(s: Screen, c: char): (s': Screen)
    ensures c == '\n' ==> s'.video == s.video && s'.cursor == NewLine(s.cursor)
    ensures c != '\n' ==>
      && s'.cursor < ScreenBytes
      && (s.cursor % 2 == 0 ==> s'.cursor % 2 == 0)
      && (s.cursor + 2 < ScreenBytes ==> s'.cursor == s.cursor + 2)
      && (ScreenBytes <= s.cursor + 2 < Word32 ==> s'.cursor == 0)
      && (s.cursor % 2 == 0 ==>
            s'.video.Keys == s.video.Keys + {s.cursor, s.cursor + 1}
            && s'.video[s.cursor] == c && s'.video[s.cursor + 1] == WhiteOnBlack
            && forall o :: o in s.video && o != s.cursor && o != s.cursor + 1 ==> s'.video[o] == s.video[o])
  {
    if c == '\n' then Screen(NewLine(s.cursor), s.video)
    else
      var video := s.video[s.cursor := c][(s.cursor + 1) % Word32 := WhiteOnBlack];
      var next := (s.cursor + 2) % Word32;
      Screen(if next >= ScreenBytes then 0 else next, video)
  }

  /** The screen after the display loop has gone through text. */
  function Display(s: Screen, text: seq<char>): (r: Screen)
    ensures s.video.Keys <= r.video.Keys
    decreases |text|
  {
    if text == [] then s else Put(Display(s, text[..|text| - 1]), text[|text| - 1])
  }

  /** Displaying one more character of text is one more Put. */
  lemma DisplayStep(s: Screen, text: seq<char>, p: nat)
    requires p < |text|
    ensures Display(s, text[..p + 1]) == Put(Display(s, text[..p]), text[p])
  {
    assert text[..p + 1][..p] == text[..p];
  }

  /** `cursor_pos` stays even: it starts at 0, moves by 2, and newlines set it to a multiple of 160 (modulo 2^32). */
  lemma {:induction false} DisplayKeepsEven(s: Screen, text: seq<char>)
    requires s.cursor % 2 == 0
    ensures Display(s, text).cursor % 2 == 0
    decreases |text|
  {
    if text != [] {
      DisplayKeepsEven(s, text[..|text| - 1]);
    }
  }

  /**
   * On the last row a newline leaves the cursor at 4000, one past the
   * screen, and the next character is then written at offsets 4000 and
   * 4001, outside the 80x25 cells, before the cursor wraps to 0.
   */
  lemma LastRowNewLine(s: Screen, c: char)
    requires ScreenBytes - RowBytes <= s.cursor < ScreenBytes && c != '\n'
    ensures Put(s, '\n').cursor == ScreenBytes
    ensures var t := Put(Put(s, '\n'), c);
      t.video[ScreenBytes] == c && t.video[ScreenBytes + 1] == WhiteOnBlack && t.cursor == 0
  {
    assert s.cursor / RowBytes == ScreenHeight - 1;
  }

  class Console {
    /** `cursor_pos`. */
    var cursorPos: U32
    /** Video memory at 0xb8000, by offset: the bytes vprintk has written. */
    var video: map<nat, char>

    ghost predicate Valid()
      reads this
    {
      cursorPos % 2 == 0
    }

    function State(): Screen
      reads this
    {
      Screen(cursorPos, video)
    }

    /** `cursor_pos` starts at 0. */
    constructor ()
      ensures Valid() && cursorPos == 0 && video == map[]
    {
      cursorPos := 0;
      video := map[];
    }

    /** The body of vprintk's display loop for one character c. */
    method PutChar(c: char)
      requires Valid()
      modifies this
      ensures Valid()
      ensures State() == Put(old(State()), c)
    {
      if c == '\n' {
        // Move to the beginning of the next line.
        cursorPos := ((cursorPos / RowBytes + 1) * RowBytes) % Word32;
        assert cursorPos == NewLine(old(cursorPos));
      } else {
        video := video[cursorPos := c];
        video := video[(cursorPos + 1) % Word32 := WhiteOnBlack];
        var next := (cursorPos + 2) % Word32;
        // Back to the top when the end of the screen is reached.
        cursorPos := if next >= ScreenBytes then 0 else next;
      }
    }

    /**
     * `vprintk(format, args)`: expands the format into the local buffer, then
     * copies it to the screen character by character until its NUL.
     */
    method Vprintk(format: seq<char>, pieces: seq<seq<char>>)
      requires Valid()
      requires WellFormed(format, pieces) && |Expand(format, pieces)| < BufferSize
      requires forall i :: 0 <= i < |pieces| ==> '\0' !in pieces[i]
      modifies this
      ensures Valid()
      ensures State() == Display(old(State()), Expand(format, pieces))
    {
      var text := Render(format, pieces);
      ghost var out := Expand(format, pieces);
      ghost var s0 := State();
      var p := 0;
      while text[p] != '\0'
        invariant p <= |out|
        invariant Valid() && State() == Display(s0, out[..p])
        decreases |out| - p
      {
        DisplayStep(s0, out, p);
        PutChar(text[p]);
        p := p + 1;
      }
      assert out[..p] == out;
    }
  }
}
