/** The plain (ASCII) PPM file written at the end of a render: the "P3"
    header, then one text line per image row listing every pixel's red, green
    and blue channels in decimal, each followed by a space. */
module Ppm {
  import opened Raster

  datatype Option<T> = None | Some(value: T)

  /** An image as read back from its text: size and row-major pixels. */
  datatype Image = Image(w: int, h: int, pixels: seq<Color>)

  // ---------------------------------------------------------------------------
  // Decimal numerals, as `<<` writes an int

  predicate IsDigit(ch: char) { '0' <= ch <= '9' }

  predicate AllDigits(s: string) {
    forall i :: 0 <= i < |s| ==> IsDigit(s[i])
  }

  function DigitChar(d: int): (ch: char)
    requires 0 <= d < 10
    ensures IsDigit(ch) && ch as int - '0' as int == d
  {
    (d + '0' as int) as char
  }

  /** The shortest decimal numeral of n: no leading zeros, "0" for zero. */
  function NatText(n: nat): string
    decreases n
  {
    if n < 10 then [DigitChar(n)] else NatText(n / 10) + [DigitChar(n % 10)]
  }

  /** A numeral is a non-empty string of digits without a leading zero. */
  lemma {:induction false} NatTextDigits(n: nat)
    decreases n
    ensures var s := NatText(n); 1 <= |s| && AllDigits(s) && (|s| > 1 ==> s[0] != '0')
  {
    if n >= 10 {
      NatTextDigits(n / 10);
    }
  }

  /** How an int is written out: a minus sign before the numeral of its magnitude. */
  function IntText(n: int): string {
    if n < 0 then "-" + NatText(-n) else NatText(n)
  }

  /** The value of a string of decimal digits, most significant first. */
  function DigitsValue(s: string): nat
    requires AllDigits(s)
  {
    if s == [] then 0
    else DigitsValue(s[..|s| - 1]) * 10 + (s[|s| - 1] as int - '0' as int)
  }

  /** Reading a written numeral gives back the number. */
  lemma {:induction false} NatTextValue(n: nat)
    decreases n
    ensures AllDigits(NatText(n)) && DigitsValue(NatText(n)) == n
  {
    NatTextDigits(n);
    if n >= 10 {
      NatTextValue(n / 10);
      var s := NatText(n);
      assert s[..|s| - 1] == NatText(n / 10);
    }
  }

  // ---------------------------------------------------------------------------
  // The file text

  /** One pixel: its three channels, each followed by a space. */
  function PixelText(c: Color): string {
    IntText(c.r) + " " + IntText(c.g) + " " + IntText(c.b) + " "
  }

  /** One row of pixels, left to right, without the line break. */
  function RowText(row: seq<Color>): string {
    if row == [] then ""
    else RowText(row[..|row| - 1]) + PixelText(row[|row| - 1])
  }

  /** Concatenation of texts is associative. */
  lemma Assoc(a: string, b: string, c: string)
    ensures (a + b) + c == a + (b + c)
  {
  }

  /** The text of `rows` rows of a row-major buffer `w` pixels wide, each
      ended by a line break: the last w pixels form the last row. (When the
      buffer holds exactly rows * w pixels, row y is pixels[y*w..(y+1)*w].) */
  function Body(pixels: seq<Color>, w: nat, rows: nat): string
    decreases rows
  {
    if rows == 0 then ""
    else
      var k := if |pixels| >= w then |pixels| - w else 0;
      Body(pixels[..k], w, rows - 1) + RowText(pixels[k..]) + "\n"
  }

  /** The header: magic "P3", width and height, and the maximum channel value 255. */
  function Header(w: int, h: int): string {
    "P3\n" + IntText(w) + " " + IntText(h) + "\n" + "255\n"
  }

  /** The whole file for a w x h framebuffer. */
  function PlainPpm(pixels: seq<Color>, w: nat, h: nat): string
    requires |pixels| == h * w
  {
    Header(w, h) + Body(pixels, w, h)
  }

  lemma MulStep(k: int, w: int)
    ensures (k + 1) * w == k * w + w
  {
  }

  /** Completing a row appends that row and its line break to the body. */
  lemma BodySnoc(s: seq<Color>, w: nat, rows: nat, start: nat)
    requires start + w <= |s|
    ensures Body(s[..start + w], w, rows + 1) == Body(s[..start], w, rows) + RowText(s[start..start + w]) + "\n"
  {
    var p := s[..start + w];
    assert p[..start] == s[..start];
    assert p[start..] == s[start..start + w];
  }

  /** One pass of the writer's outer loop: appending row y's text and its
      line break extends the text written so far by one row of the body. */
  lemma RowWritten(s: seq<Color>, w: nat, y: nat, start: nat, head: string, text: string, line: string)
    requires start == y * w && start + w <= |s|
    requires text == head + Body(s[..start], w, y) && line == RowText(s[start..start + w])
    ensures (y + 1) * w <= |s|
    ensures text + line + "\n" == head + Body(s[..(y + 1) * w], w, y + 1)
  {
    MulStep(y, w);
    BodySnoc(s, w, y, start);
    var b, r := Body(s[..start], w, y), RowText(s[start..start + w]);
    Assoc(head, b, r);
    Assoc(head, b + r, "\n");
  }

  /** Row y of an h-row buffer ends within the buffer. */
  lemma RowEnd(w: nat, h: nat, y: nat)
    requires y < h
    ensures 0 <= y * w && y * w + w <= h * w
  {
    MulStep(y, w);
    MulMonotone(y + 1, h, w);
  }

  /** Writes the framebuffer out: the header, then row by row every pixel's
      channels, and a line break after each row. Returns the text written. */
  method WritePlain(img: array<Color>, w: nat, h: nat) returns (text: string)
    requires img.Length == h * w
    ensures text == PlainPpm(img[..], w, h)
  {
    text := "P3\n" + IntText(w) + " " + IntText(h) + "\n" + "255\n";
    ghost var head := text;
    assert head == Header(w, h);
    for y := 0 to h
      invariant 0 <= y * w <= h * w
      invariant text == head + Body(img[..][..y * w], w, y)
    {
      RowEnd(w, h, y);
      var start := y * w;
      var line := WriteRow(img, start, w);
      RowWritten(img[..], w, y, start, head, text, line);
      text := text + line + "\n";
    }
    assert img[..][..h * w] == img[..];
  }

  /** The inner loop of the writer: the channels of the w pixels from `start`
      on, left to right, each followed by a space. */
  method WriteRow(img: array<Color>, start: nat, w: nat) returns (line: string)
    requires start + w <= img.Length
    ensures line == RowText(img[..][start..start + w])
  {
    line := "";
    for x := 0 to w
      invariant line == RowText(img[..][start..start + x])
    {
      var color := img[start + x];
      var cell := IntText(color.r) + " " + IntText(color.g) + " " + IntText(color.b) + " ";
      assert cell == PixelText(img[..][start + x]);
      RowTextSnoc(img[..], start, start + x);
      line := line + cell;
    }
  }

  /** Extending a row slice by one pixel appends that pixel's text. */
  lemma RowTextSnoc(s: seq<Color>, i: int, j: int)
    requires 0 <= i <= j < |s|
    ensures RowText(s[i..j + 1]) == RowText(s[i..j]) + PixelText(s[j])
  {
    var next := s[i..j + 1];
    assert next[..|next| - 1] == s[i..j];
    assert next[|next| - 1] == s[j];
  }

  // ---------------------------------------------------------------------------
  // Reading the text back

  predicate IsSeparator(ch: char) { ch == ' ' || ch == '\n' }

  predicate NoSeparator(s: string) {
    forall i :: 0 <= i < |s| ==> !IsSeparator(s[i])
  }

  /** The word under construction, if any, as a list of zero or one word. */
  function Flush(cur: string): seq<string> {
    if cur == [] then [] else [cur]
  }

  /** Splits text at spaces and line breaks into its non-empty words; `cur`
      holds the characters of the word being read. */
  function Split(s: string, cur: string): seq<string> {
    if s == [] then Flush(cur)
    else if IsSeparator(s[0]) then Flush(cur) + Split(s[1..], [])
    else Split(s[1..], cur + [s[0]])
  }

  function Words(s: string): seq<string> { Split(s, []) }

  /** Text that ends with a separator splits independently of what follows. */
  lemma {:induction false} SplitAppend(x: string, y: string, cur: string)
    requires x != [] && IsSeparator(x[|x| - 1])
    decreases |x|
    ensures Split(x + y, cur) == Split(x, cur) + Split(y, [])
  {
    assert (x + y)[1..] == x[1..] + y;
    if |x| == 1 {
      assert x[1..] == [];
    } else if IsSeparator(x[0]) {
      SplitAppend(x[1..], y, []);
    } else {
      SplitAppend(x[1..], y, cur + [x[0]]);
    }
  }

  lemma WordsAppend(x: string, y: string)
    requires x == [] || IsSeparator(x[|x| - 1])
    ensures Words(x + y) == Words(x) + Words(y)
  {
    if x == [] {
      assert x + y == y;
    } else {
      SplitAppend(x, y, []);
    }
  }

  /** A word followed by one separator reads as that word. */
  lemma {:induction false} SplitWord(tok: string, sep: char, cur: string)
    requires NoSeparator(tok) && IsSeparator(sep) && cur + tok != []
    decreases |tok|
    ensures Split(tok + [sep], cur) == [cur + tok]
  {
    if tok == [] {
      assert cur + tok == cur;
      assert Split([sep][1..], []) == [];
    } else {
      assert (tok + [sep])[1..] == tok[1..] + [sep];
      assert (cur + [tok[0]]) + tok[1..] == cur + tok;
      SplitWord(tok[1..], sep, cur + [tok[0]]);
    }
  }

  lemma WordSep(tok: string, sep: char)
    requires NoSeparator(tok) && IsSeparator(sep) && tok != []
    ensures Words(tok + [sep]) == [tok]
  {
    SplitWord(tok, sep, []);
    assert [] + tok == tok;
  }

  /** The words of a row of pixels: three per pixel, in order. */
  function ChannelWords(pixels: seq<Color>): seq<string> {
    if pixels == [] then []
    else
      var c := pixels[|pixels| - 1];
      ChannelWords(pixels[..|pixels| - 1]) + [IntText(c.r), IntText(c.g), IntText(c.b)]
  }

  lemma {:induction false} ChannelWordsAppend(a: seq<Color>, b: seq<Color>)
    decreases |b|
    ensures ChannelWords(a + b) == ChannelWords(a) + ChannelWords(b)
  {
    if b != [] {
      var n := |b| - 1;
      assert (a + b)[..|a + b| - 1] == a + b[..n];
      ChannelWordsAppend(a, b[..n]);
    } else {
      assert a + b == a;
    }
  }

  lemma ChannelWordsLength(pixels: seq<Color>)
    ensures |ChannelWords(pixels)| == 3 * |pixels|
  {
  }

  /** A channel value in the range 0..255 that the header declares. */
  predicate InRange(c: Color) {
    0 <= c.r <= 255 && 0 <= c.g <= 255 && 0 <= c.b <= 255
  }

  predicate AllInRange(pixels: seq<Color>) {
    forall i :: 0 <= i < |pixels| ==> InRange(pixels[i])
  }

  lemma NumeralWord(n: nat, sep: char)
    requires IsSeparator(sep)
    ensures Words(NatText(n) + [sep]) == [NatText(n)]
  {
    NatTextDigits(n);
    WordSep(NatText(n), sep);
  }

  lemma PixelWords(c: Color)
    requires InRange(c)
    ensures Words(PixelText(c)) == [IntText(c.r), IntText(c.g), IntText(c.b)]
  {
    var r, g, b := NatText(c.r) + " ", NatText(c.g) + " ", NatText(c.b) + " ";
    assert PixelText(c) == r + (g + b);
    NumeralWord(c.r, ' ');
    NumeralWord(c.g, ' ');
    NumeralWord(c.b, ' ');
    WordsAppend(r, g + b);
    WordsAppend(g, b);
  }

  lemma {:induction false} RowWords(row: seq<Color>)
    requires AllInRange(row)
    decreases |row|
    ensures RowText(row) == [] || IsSeparator(RowText(row)[|RowText(row)| - 1])
    ensures Words(RowText(row)) == ChannelWords(row)
  {
    if row != [] {
      var n := |row| - 1;
      RowWords(row[..n]);
      PixelWords(row[n]);
      WordsAppend(RowText(row[..n]), PixelText(row[n]));
    }
  }

  /** A row followed by its line break reads as the row's words. */
  lemma LineWords(r: string)
    requires r == [] || IsSeparator(r[|r| - 1])
    ensures Words(r + "\n") == Words(r)
  {
    assert Words("\n") == [];
    if r == [] {
      assert r + "\n" == "\n";
    } else {
      WordsAppend(r, "\n");
    }
  }

  /** The last row of a full buffer of `rows` rows starts at k = (rows - 1) * w. */
  lemma BodyStep(pixels: seq<Color>, w: nat, rows: nat, k: int)
    requires rows > 0 && |pixels| == rows * w && k == (rows - 1) * w
    ensures 0 <= k <= |pixels|
    ensures Body(pixels, w, rows) == Body(pixels[..k], w, rows - 1) + RowText(pixels[k..]) + "\n"
  {
    MulStep(rows - 1, w);
    MulMonotone(0, rows - 1, w);
  }

  /** Words of a body followed by one more row and its line break. */
  lemma ComposeWords(b: string, r: string, cf: seq<string>, cb: seq<string>)
    requires b == [] || IsSeparator(b[|b| - 1])
    requires r == [] || IsSeparator(r[|r| - 1])
    requires Words(b) == cf && Words(r) == cb
    ensures Words(b + (r + "\n")) == cf + cb
  {
    WordsAppend(b, r + "\n");
    LineWords(r);
  }

  /** The body is empty or ends with a line break. */
  lemma BodyEnds(pixels: seq<Color>, w: nat, rows: nat)
    ensures Body(pixels, w, rows) == [] || IsSeparator(Body(pixels, w, rows)[|Body(pixels, w, rows)| - 1])
  {
  }

  lemma {:induction false} BodyWords(pixels: seq<Color>, w: nat, rows: nat)
    requires |pixels| == rows * w && AllInRange(pixels)
    decreases rows
    ensures Words(Body(pixels, w, rows)) == ChannelWords(pixels)
  {
    if rows > 0 {
      var k := (rows - 1) * w;
      LastRowStart(rows, w, k);
      SplitInRange(pixels, k);
      BodyWords(pixels[..k], w, rows - 1);
      LastRowWords(pixels, w, rows, k);
    }
  }

  /** Where the last of `rows` rows starts. */
  lemma LastRowStart(rows: nat, w: nat, k: int)
    requires rows > 0 && k == (rows - 1) * w
    ensures 0 <= k && k + w == rows * w
  {
    MulStep(rows - 1, w);
    MulMonotone(0, rows - 1, w);
  }

  /** The words of a body are those of all rows but the last, then the last row's. */
  lemma LastRowWords(pixels: seq<Color>, w: nat, rows: nat, k: int)
    requires rows > 0 && |pixels| == rows * w && k == (rows - 1) * w && AllInRange(pixels[k..])
    requires 0 <= k <= |pixels| && Words(Body(pixels[..k], w, rows - 1)) == ChannelWords(pixels[..k])
    ensures Words(Body(pixels, w, rows)) == ChannelWords(pixels)
  {
    BodyStep(pixels, w, rows, k);
    LastRowAppended(pixels, w, rows, k);
  }

  lemma LastRowAppended(pixels: seq<Color>, w: nat, rows: nat, k: int)
    requires rows > 0 && 0 <= k <= |pixels| && AllInRange(pixels[k..])
    requires Words(Body(pixels[..k], w, rows - 1)) == ChannelWords(pixels[..k])
    ensures Words(Body(pixels[..k], w, rows - 1) + RowText(pixels[k..]) + "\n") == ChannelWords(pixels)
  {
    var front, back := pixels[..k], pixels[k..];
    BodyEnds(front, w, rows - 1);
    TakeDrop(pixels, k);
    RowAfterBody(Body(front, w, rows - 1), front, back);
  }

  lemma TakeDrop(s: seq<Color>, k: int)
    requires 0 <= k <= |s|
    ensures s[..k] + s[k..] == s
  {
  }

  /** Both parts of a buffer cut at k hold channels in range, and they
      join back into the buffer. */
  lemma SplitInRange(pixels: seq<Color>, k: int)
    requires 0 <= k <= |pixels| && AllInRange(pixels)
    ensures AllInRange(pixels[..k]) && AllInRange(pixels[k..])
    ensures pixels[..k] + pixels[k..] == pixels
  {
    assert forall i :: 0 <= i < |pixels| - k ==> pixels[k..][i] == pixels[k + i];
  }

  /** Appending one row and its line break to a body whose words are the
      channels of `front` gives the channels of `front + back`. */
  lemma RowAfterBody(b: string, front: seq<Color>, back: seq<Color>)
    requires b == [] || IsSeparator(b[|b| - 1])
    requires Words(b) == ChannelWords(front) && AllInRange(back)
    ensures Words(b + RowText(back) + "\n") == ChannelWords(front + back)
  {
    RowWords(back);
    Assoc(b, RowText(back), "\n");
    ComposeWords(b, RowText(back), ChannelWords(front), ChannelWords(back));
    ChannelWordsAppend(front, back);
  }

  lemma HeaderWords(w: nat, h: nat)
    ensures Words(Header(w, h)) == ["P3", NatText(w), NatText(h), "255"]
  {
    var a, rest := "P3\n", NatText(w) + " " + (NatText(h) + "\n" + "255\n");
    assert Header(w, h) == a + rest;
    assert a == "P3" + ['\n'];
    WordSep("P3", '\n');
    SizeWords(w, h);
    WordsAppend(a, rest);
  }

  /** The size and maximum-value lines of the header read as three words. */
  lemma SizeWords(w: nat, h: nat)
    ensures Words(NatText(w) + " " + (NatText(h) + "\n" + "255\n")) == [NatText(w), NatText(h), "255"]
  {
    var b, c, d := NatText(w) + " ", NatText(h) + "\n", "255\n";
    assert d == "255" + ['\n'];
    assert b == NatText(w) + [' '] && c == NatText(h) + ['\n'];
    NumeralWord(w, ' ');
    NumeralWord(h, '\n');
    WordSep("255", '\n');
    WordsAppend(b, c + d);
    WordsAppend(c, d);
  }

  /** The file is four header words followed by exactly 3 * w * h channel
      values, in row-major pixel order. */
  lemma PlainPpmWords(pixels: seq<Color>, w: nat, h: nat)
    requires |pixels| == h * w && AllInRange(pixels)
    ensures Words(PlainPpm(pixels, w, h)) ==
      ["P3", NatText(w), NatText(h), "255"] + ChannelWords(pixels)
    ensures |Words(PlainPpm(pixels, w, h))| == 4 + 3 * (w * h)
  {
    HeaderWords(w, h);
    BodyWords(pixels, w, h);
    BodyEnds(pixels, w, h);
    WordsAppend(Header(w, h), Body(pixels, w, h));
    ChannelWordsLength(pixels);
  }

  /** The number of line breaks in a text. */
  function Lines(s: string): nat { multiset(s)['\n'] }

  lemma {:induction false} RowHasNoBreak(row: seq<Color>)
    decreases |row|
    ensures Lines(RowText(row)) == 0
  {
    if row != [] {
      var n := |row| - 1;
      RowHasNoBreak(row[..n]);
      PixelHasNoBreak(RowText(row[..n]), row[n]);
    }
  }

  /** A pixel's channels and spaces add no line break. */
  lemma PixelHasNoBreak(t: string, c: Color)
    requires Lines(t) == 0
    ensures Lines(t + PixelText(c)) == 0
  {
    IntHasNoBreak(c.r);
    IntHasNoBreak(c.g);
    IntHasNoBreak(c.b);
  }

  lemma IntHasNoBreak(n: int)
    ensures Lines(IntText(n)) == 0
  {
    NumeralHasNoBreak(if n < 0 then -n else n);
  }

  lemma NumeralHasNoBreak(n: nat)
    ensures Lines(NatText(n)) == 0
  {
  }

  /** The file has one line per image row after the three header lines. */
  lemma {:induction false} PlainPpmLines(pixels: seq<Color>, w: nat, h: nat)
    requires |pixels| == h * w
    ensures Lines(PlainPpm(pixels, w, h)) == h + 3
  {
    NumeralHasNoBreak(w);
    NumeralHasNoBreak(h);
    BodyLines(pixels, w, h);
  }

  lemma {:induction false} BodyLines(pixels: seq<Color>, w: nat, rows: nat)
    requires |pixels| == rows * w
    decreases rows
    ensures Lines(Body(pixels, w, rows)) == rows
  {
    if rows > 0 {
      var k := (rows - 1) * w;
      BodyStep(pixels, w, rows, k);
      BodyLines(pixels[..k], w, rows - 1);
      RowHasNoBreak(pixels[k..]);
    }
  }

  /** One channel word: a numeral of at most 255. */
  function ParseChannel(t: string): Option<int> {
    if t != [] && AllDigits(t) && DigitsValue(t) <= 255 then Some(DigitsValue(t)) else None
  }

  /** Channel words back to pixels, three words per pixel. */
  function ParseChannels(ws: seq<string>): (r: Option<seq<Color>>)
    ensures r.Some? ==> 3 * |r.value| == |ws| && AllInRange(r.value)
  {
    if ws == [] then Some([])
    else if |ws| < 3 then None
    else
      var n := |ws| - 3;
      match (ParseChannels(ws[..n]), ParseChannel(ws[n]), ParseChannel(ws[n + 1]), ParseChannel(ws[n + 2]))
      case (Some(front), Some(r), Some(g), Some(b)) => Some(front + [Color(r, g, b)])
      case _ => None
  }

  /** Reads a plain PPM text: the magic word, a width and a height, the maximum
      value 255, then exactly three channel values per pixel. */
  function ParsePlain(s: string): (r: Option<Image>)
    ensures r.Some? ==>
      r.value.w >= 0 && r.value.h >= 0 &&
      |r.value.pixels| == r.value.w * r.value.h && AllInRange(r.value.pixels)
  {
    var ws := Words(s);
    if |ws| < 4 || ws[0] != "P3" || ws[3] != "255" || !AllDigits(ws[1]) || !AllDigits(ws[2]) then None
    else
      var w, h := DigitsValue(ws[1]), DigitsValue(ws[2]);
      if |ws| != 4 + 3 * (w * h) then None
      else
        match ParseChannels(ws[4..])
        case None => None
        case Some(px) => Some(Image(w, h, px))
  }

  /** A channel value written in range reads back as itself. */
  lemma ChannelWordValue(v: int)
    requires 0 <= v <= 255
    ensures ParseChannel(IntText(v)) == Some(v)
  {
    NatTextValue(v);
  }

  /** Three more channel words read as one more pixel. */
  lemma ParseChannelsSnoc(ws: seq<string>, front: seq<Color>, c: Color)
    requires ParseChannels(ws) == Some(front) && InRange(c)
    ensures ParseChannels(ws + [IntText(c.r), IntText(c.g), IntText(c.b)]) == Some(front + [c])
  {
    ChannelWordValue(c.r);
    ChannelWordValue(c.g);
    ChannelWordValue(c.b);
    var all := ws + [IntText(c.r), IntText(c.g), IntText(c.b)];
    var n := |all| - 3;
    assert all[..n] == ws;
    assert all[n] == IntText(c.r) && all[n + 1] == IntText(c.g) && all[n + 2] == IntText(c.b);
  }

  lemma {:induction false} ChannelsRoundTrip(pixels: seq<Color>)
    requires AllInRange(pixels)
    decreases |pixels|
    ensures ParseChannels(ChannelWords(pixels)) == Some(pixels)
  {
    if pixels != [] {
      var n := |pixels| - 1;
      ChannelsRoundTrip(pixels[..n]);
      ParseChannelsSnoc(ChannelWords(pixels[..n]), pixels[..n], pixels[n]);
      assert pixels[..n] + [pixels[n]] == pixels;
    }
  }

  /** Reading back the written file recovers the size and every pixel, for a
      framebuffer whose channels lie in the declared range 0..255. */
  lemma PlainPpmRoundTrip(pixels: seq<Color>, w: nat, h: nat)
    requires |pixels| == h * w && AllInRange(pixels)
    ensures ParsePlain(PlainPpm(pixels, w, h)) == Some(Image(w, h, pixels))
  {
    PlainPpmWords(pixels, w, h);
    NatTextValue(w);
    NatTextValue(h);
    var ws := Words(PlainPpm(pixels, w, h));
    assert ws[4..] == ChannelWords(pixels);
    ChannelsRoundTrip(pixels);
  }
}
