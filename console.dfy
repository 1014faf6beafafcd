/**
 * The console's number printing and line discipline (kernel/console.c).
 *
 * printint renders a number into a 16-byte buffer, least significant
 * digit first, and sends it to consputc from the top down; the output is
 * the sequence of characters sent. The keyboard interrupt handler edits
 * the 128-byte ring `input` through three indices: r (next to read), w
 * (end of the committed lines) and e (end of the line being edited).
 * consoleread hands committed bytes to a reader and feeds each one to
 * history_buff, which keeps the last three lines in a ring of buffers.
 * Characters are bytes; getc's codes are the bytes the handler is given.
 */
module Console {
  import opened Wrappers

  // ---------------------------------------------------------------------
  // printint

  const DIGITS: string := "0123456789abcdef"

  /** The digits of x in base, most significant first; 0 is "0". */
  function Numeral(x: nat, base: nat): (s: seq<char>)
    requires 2 <= base <= 16
    decreases x
  {
    if x < base then [DIGITS[x]] else Numeral(x / base, base) + [DIGITS[x % base]]
  }

  /** The value of a digit of DIGITS. */
  function DigitValue(c: char): nat
  {
    if '0' <= c <= '9' then (c - '0') as nat
    else if 'a' <= c <= 'f' then (c - 'a') as nat + 10
    else 0
  }

  /** The number a string of digits in base stands for, most significant first. */
  function ValueOf(s: seq<char>, base: nat): nat
    decreases |s|
  {
    if s == [] then 0 else ValueOf(s[..|s| - 1], base) * base + DigitValue(s[|s| - 1])
  }

  lemma DigitRoundTrip(d: nat)
    requires d < 16
    ensures DigitValue(DIGITS[d]) == d
  {
  }

  /** Euclidean division by the base, as printint's loop uses it. */
  lemma DivBase(x: nat, base: nat)
    requires 2 <= base <= 16
    ensures x == (x / base) * base + x % base && x % base < base
    ensures x >= base ==> 1 <= x / base < x
    ensures x < base ==> x / base == 0 && x % base == x
    ensures x / base <= x
  {
  }

  /** Reading the digits back gives the number: printint loses nothing. */
  lemma {:induction false} NumeralValue(x: nat, base: nat)
    requires 2 <= base <= 16
    ensures ValueOf(Numeral(x, base), base) == x
    decreases x
  {
    var s := Numeral(x, base);
    if x < base {
      DigitRoundTrip(x);
      assert s[..0] == [];
    } else {
      DivBase(x, base);
      NumeralValue(x / base, base);
      DigitRoundTrip(x % base);
      assert s[..|s| - 1] == Numeral(x / base, base);
    }
  }

  /** The first digit is 0 only for the number 0: no leading zeros. */
  lemma {:induction false} NumeralLeading(x: nat, base: nat)
    requires 2 <= base <= 16
    ensures |Numeral(x, base)| >= 1
    ensures Numeral(x, base)[0] == '0' <==> x == 0
    decreases x
  {
    if x >= base {
      DivBase(x, base);
      NumeralLeading(x / base, base);
    }
  }

  function Power(b: nat, k: nat): nat
  {
    if k == 0 then 1 else b * Power(b, k - 1)
  }

  /** x below base * p means x / base below p. */
  lemma DivBelow(x: nat, base: nat, p: nat)
    requires 2 <= base <= 16 && x < base * p
    ensures x / base < p
  {
    DivBase(x, base);
  }

  /** A number below base^k, k at least 1, has at most k digits. */
  lemma {:induction false} NumeralLength(x: nat, base: nat, k: nat)
    requires 2 <= base <= 16 && 1 <= k && x < Power(base, k)
    ensures |Numeral(x, base)| <= k
    decreases k
  {
    if x >= base {
      DivBelow(x, base, Power(base, k - 1));
      NumeralLength(x / base, base, k - 1);
    }
  }

  lemma TenPowerTen()
    ensures Power(10, 10) == 10_000_000_000
  {
  }

  /** A uint has at most ten digits in base 10 or more: printint's 16-byte buffer is large enough. */
  lemma UintDigits(x: nat, base: nat)
    requires x < UINT_LIMIT && 10 <= base <= 16
    ensures |Numeral(x, base)| <= 10
  {
    TenPowerTen();
    PowerMono(10, base, 10);
    NumeralLength(x, base, 10);
  }

  /** The width of uint: printint converts to it. */
  const UINT_LIMIT: int := 0x1_0000_0000

  /**
   * The unsigned number printint prints for xx: -xx when sign is asked
   * for and xx is negative, else xx converted to uint (negative values
   * wrap around).
   */
  function Magnitude(xx: int, sign: bool): nat
  {
    if sign && xx < 0 then -xx else xx % UINT_LIMIT
  }

  /** What printint sends to the console: '-' when sign is asked for and xx is negative, then the digits. */
  function Rendered(xx: int, base: nat, sign: bool): seq<char>
    requires 2 <= base <= 16
  {
    (if sign && xx < 0 then "-" else "") + Numeral(Magnitude(xx, sign), base)
  }

  /** The digits that remain to be produced for the unsigned x: none once it is 0. */
  function Remaining(x: nat, base: nat): seq<char>
    requires 2 <= base <= 16
  {
    if x == 0 then [] else Numeral(x, base)
  }

  /** One turn of printint's do-while loop peels the last digit off. */
  lemma NumeralSplit(x: nat, base: nat)
    requires 2 <= base <= 16
    ensures Numeral(x, base) == Remaining(x / base, base) + [DIGITS[x % base]]
  {
    if x < base {
      DivBase(x, base);
    } else {
      DivBase(x, base);
      assert Remaining(x / base, base) == Numeral(x / base, base);
    }
  }

  /** The digit printint's loop stores for x, and the digits that remain after it. */
  lemma DigitStep(x: nat, base: nat)
    requires 2 <= base <= 16
    ensures 0 <= x % base < base && 0 <= x / base && (x != 0 ==> x / base < x)
    ensures var num := Numeral(x, base);
      |num| >= 1 && num[|num| - 1] == DIGITS[x % base] && Remaining(x / base, base) == num[..|num| - 1]
  {
    DivBase(x, base);
    NumeralSplit(x, base);
  }

  /**
   * printint's do-while loop (kernel/console.c:43-45): the digits of x go
   * into buf least significant first, and there are at most ten of them.
   */
  method StoreDigits(buf: array<char>, x: nat, base: nat) returns (i: nat)
    requires buf.Length == 16 && x < UINT_LIMIT && 10 <= base <= 16
    modifies buf
    ensures i == |Numeral(x, base)| <= 10
    ensures buf[..i] == Backwards(Numeral(x, base))
  {
    var digits := DIGITS;
    ghost var num := Numeral(x, base);
    UintDigits(x, base);
    var y: nat := x;
    i := 0;
    DigitStep(y, base);
    buf[i] := digits[y % base];
    i := i + 1;
    y := y / base;
    while y != 0
      invariant 1 <= i <= |num| && Remaining(y, base) == num[..|num| - i]
      invariant buf[..i] == Backwards(num[|num| - i..])
      decreases y
    {
      DigitStep(y, base);
      BackwardsCons(num, |num| - i);
      ghost var stored := buf[..i];
      buf[i] := digits[y % base];
      assert buf[..i + 1] == stored + [digits[y % base]];
      i := i + 1;
      y := y / base;
    }
    assert num[|num| - i..] == num;
  }

  /** A sequence read from its end. */
  function Backwards<T>(s: seq<T>): (b: seq<T>)
    ensures |b| == |s| && forall k :: 0 <= k < |s| ==> b[k] == s[|s| - 1 - k]
  {
    seq(|s|, k requires 0 <= k < |s| => s[|s| - 1 - k])
  }

  lemma BackwardsCons<T>(s: seq<T>, j: nat)
    requires 0 < j <= |s|
    ensures Backwards(s[j - 1..]) == Backwards(s[j..]) + [s[j - 1]]
  {
  }

  /**
   * The loop of printint that sends the buffer to consputc from the top
   * down (kernel/console.c:53-54).
   */
  method Emit(buf: array<char>, n: nat) returns (out: seq<char>)
    requires n <= buf.Length
    ensures out == Backwards(buf[..n])
  {
    var i := n;
    out := [];
    while i > 0
      invariant 0 <= i <= n && out == Backwards(buf[i..n])
    {
      i := i - 1;
      assert buf[i..n] == buf[..n][i..];
      BackwardsCons(buf[..n], i + 1);
      out := out + [buf[i]];
    }
  }

  /**
   * printint (kernel/console.c:33-55) on an int xx, for the bases its
   * callers use (10 for %d, 16 for %x and %p): the characters sent to
   * consputc are the number as Rendered says, and the 16-byte buffer is
   * never overrun.
   */
  method PrintInt(xx: int, base: nat, sign: bool) returns (out: seq<char>)
    requires -0x8000_0000 <= xx < 0x8000_0000 && (base == 10 || base == 16)
    ensures out == Rendered(xx, base, sign)
  {
    var buf := new char[16];
    var neg := sign && xx < 0;
    var x: nat := if neg then -xx else xx % UINT_LIMIT;
    var i := StoreDigits(buf, x, base);
    ghost var digits := buf[..i];
    if neg {
      buf[i] := '-';
      i := i + 1;
      assert buf[..i] == digits + ['-'];
    }
    out := Emit(buf, i);
    assert out == (if neg then "-" else "") + Numeral(x, base);
  }

  lemma SliceSnoc<T>(s: seq<T>, j: nat)
    requires j < |s|
    ensures s[..j + 1] == s[..j] + [s[j]]
  {
  }

  /** Powers grow with the base. */
  lemma {:induction false} PowerMono(a: nat, b: nat, k: nat)
    requires a <= b
    ensures Power(a, k) <= Power(b, k)
  {
    if k > 0 {
      PowerMono(a, b, k - 1);
      MulMono(a, Power(a, k - 1), b, Power(b, k - 1));
    }
  }

  lemma MulMono(a: nat, x: nat, b: nat, y: nat)
    requires a <= b && x <= y
    ensures a * x <= b * y
  {
    assert a * x <= b * x;
    assert b * x <= b * y;
  }

  // ---------------------------------------------------------------------
  // The input ring and consoleintr

  /** The ring's size; the ring is indexed modulo it, written out as 128 in the divisions. */
  const INPUT_BUF: nat := 128

  /** Control characters, C(x) in the source, and the other codes the handler tells apart. */
  const CTRL_D: bv8 := 4
  const CTRL_H: bv8 := 8
  const CTRL_P: bv8 := 16
  const CTRL_U: bv8 := 21
  const NL: bv8 := 10
  const CR: bv8 := 13
  const DEL: bv8 := 0x7f
  const KEY_UP: bv8 := 226
  const KEY_DN: bv8 := 227

  /**
   * The `input` ring: byte i of the stream is kept at buf[i % INPUT_BUF];
   * bytes r..w are committed lines a reader may take, bytes w..e the line
   * being edited.
   */
  datatype Input = Input(buf: seq<bv8>, r: nat, w: nat, e: nat)

  /** The ring's invariant: the reader is behind the committed end, which is behind the edit end, and no byte is overwritten before it is read. */
  predicate InputOk(s: Input)
  {
    |s.buf| == INPUT_BUF && s.r <= s.w <= s.e <= s.r + INPUT_BUF
  }

  /** The byte at stream position i. */
  function At(s: Input, i: nat): bv8
    requires |s.buf| == INPUT_BUF
  {
    s.buf[i % 128]
  }

  /** The n bytes of the stream from position from on. */
  function Span(s: Input, from: nat, n: nat): (q: seq<bv8>)
    requires |s.buf| == INPUT_BUF
    ensures |q| == n && forall i :: 0 <= i < n ==> q[i] == At(s, from + i)
  {
    if n == 0 then [] else Span(s, from, n - 1) + [At(s, from + n - 1)]
  }

  /** The committed bytes a reader will get, in order. */
  function Committed(s: Input): seq<bv8>
    requires InputOk(s)
  {
    Span(s, s.r, s.w - s.r)
  }

  /** The line being edited. */
  function Editing(s: Input): seq<bv8>
    requires InputOk(s)
  {
    Span(s, s.w, s.e - s.w)
  }

  /**
   * The edit end ^U backs up to (kernel/console.c:213-219): the nearest
   * position at or after w that follows a newline, or w.
   */
  function KillLine(s: Input, e: nat): (k: nat)
    requires InputOk(s) && s.w <= e <= s.e
    ensures s.w <= k <= e
    ensures k == s.w || At(s, k - 1) == NL
    ensures forall j :: k <= j < e ==> At(s, j) != NL
    decreases e
  {
    if e != s.w && At(s, e - 1) != NL then KillLine(s, e - 1) else e
  }

  /** '\r' is taken as '\n'. */
  function Cooked(c: bv8): bv8
  {
    if c == CR then NL else c
  }

  /** The default case for a byte the ring has room for (kernel/console.c:227-239). */
  function Accept(s: Input, c: bv8): Input
    requires InputOk(s) && s.e - s.r < INPUT_BUF
  {
    var stored := if c != KEY_UP && c != KEY_DN then s.(buf := s.buf[s.e % 128 := c], e := s.e + 1) else s;
    if c == NL || c == CTRL_D || stored.e == s.r + INPUT_BUF then stored.(w := stored.e) else stored
  }

  /**
   * consoleintr's switch for one byte c (kernel/console.c:207-241): the
   * reader's position never moves, committed bytes are never changed and
   * stay committed, and the ring's invariant holds.
   */
  function Key(s: Input, c: bv8): (t: Input)
    requires InputOk(s)
    ensures InputOk(t) && t.r == s.r && s.w <= t.w
    ensures forall j :: s.r <= j < s.w ==> At(t, j) == At(s, j)
  {
    if c == CTRL_P then s
    else if c == CTRL_U then s.(e := KillLine(s, s.e))
    else if c == CTRL_H || c == DEL then (if s.e != s.w then s.(e := s.e - 1) else s)
    else if c != 0 && s.e - s.r < INPUT_BUF then AcceptKeeps(s, Cooked(c)); Accept(s, Cooked(c))
    else s
  }

  /** Storing at e leaves the committed bytes alone: e and r..w are apart in the ring. */
  lemma AcceptKeeps(s: Input, c: bv8)
    requires InputOk(s) && s.e - s.r < INPUT_BUF
    ensures InputOk(Accept(s, c)) && Accept(s, c).r == s.r && s.w <= Accept(s, c).w
    ensures forall j :: s.r <= j < s.w ==> At(Accept(s, c), j) == At(s, j)
  {
    StoreKeeps(s, c);
  }

  /** Two stream positions less than a ring apart use different bytes of the ring. */
  lemma RingApart(i: nat, j: nat)
    requires i < j < i + INPUT_BUF
    ensures i % 128 != j % 128
  {
  }

  /** The effect of all the bytes of one interrupt, in order. */
  function Keys(s: Input, cs: seq<bv8>): (t: Input)
    requires InputOk(s)
    ensures InputOk(t) && t.r == s.r && s.w <= t.w
    ensures Committed(t)[..|Committed(s)|] == Committed(s)
    decreases |cs|
  {
    if cs == [] then s else KeyCommitted(s, cs[0]); Keys(Key(s, cs[0]), cs[1..])
  }

  lemma KeyCommitted(s: Input, c: bv8)
    requires InputOk(s)
    ensures Committed(Key(s, c))[..|Committed(s)|] == Committed(s)
  {
  }

  /**
   * An ordinary byte (not ^P, ^U, backspace or delete) is stored exactly
   * when it is not 0, the ring has room and it is not an arrow key; it is
   * stored as its cooked form, '\r' as '\n' (kernel/console.c:227-233).
   */
  lemma KeyStores(s: Input, c: bv8)
    requires InputOk(s) && c != CTRL_P && c != CTRL_U && c != CTRL_H && c != DEL
    ensures var t := Key(s, c);
      (t.e == s.e + 1 <==> c != 0 && s.e - s.r < INPUT_BUF && Cooked(c) != KEY_UP && Cooked(c) != KEY_DN)
      && (t.e == s.e + 1 && t.w == s.w ==> Editing(t) == Editing(s) + [Cooked(c)])
      && (t.e == s.e + 1 && t.w != s.w ==> Committed(t) == Committed(s) + Editing(s) + [Cooked(c)])
      && (t.e != s.e + 1 ==> t.e == s.e && t.buf == s.buf)
  {
    var t := Key(s, c);
    if t.e == s.e + 1 {
      var st := s.(buf := s.buf[s.e % 128 := Cooked(c)], e := s.e + 1);
      StoreKeeps(s, Cooked(c));
      if t.w == s.w {
        assert t == st;
        assert Editing(t) == Editing(s) + [Cooked(c)];
      } else {
        assert t == st.(w := st.e);
        CommitJoins(s, st, t, Cooked(c));
      }
    }
  }

  /** Committing the stored byte appends the edited line and the byte to the committed bytes. */
  lemma CommitJoins(s: Input, st: Input, t: Input, c: bv8)
    requires InputOk(s) && s.e - s.r < INPUT_BUF
    requires st == s.(buf := s.buf[s.e % 128 := c], e := s.e + 1) && t == st.(w := st.e)
    requires At(st, s.e) == c && forall j :: s.r <= j < s.e ==> At(st, j) == At(s, j)
    ensures InputOk(t) && Committed(t) == Committed(s) + Editing(s) + [c]
  {
    var ct, cs, ed := Committed(t), Committed(s), Editing(s);
    var joined := cs + ed + [c];
    forall i | 0 <= i < |joined|
      ensures ct[i] == joined[i]
    {
      assert ct[i] == At(st, s.r + i);
      if i < s.w - s.r {
        assert joined[i] == cs[i];
      } else if i < s.e - s.r {
        assert joined[i] == ed[i - (s.w - s.r)];
      }
    }
    assert ct == joined;
  }

  /** Storing at e changes no byte of r..e. */
  lemma StoreKeeps(s: Input, c: bv8)
    requires InputOk(s) && s.e - s.r < INPUT_BUF
    ensures var t := s.(buf := s.buf[s.e % 128 := c], e := s.e + 1);
      InputOk(t) && At(t, s.e) == c && forall j :: s.r <= j < s.e ==> At(t, j) == At(s, j)
  {
    forall j | s.r <= j < s.e
      ensures j % 128 != s.e % 128
    {
      RingApart(j, s.e);
    }
  }

  /**
   * An ordinary byte commits the line (w becomes e) exactly when it is
   * accepted and is '\n' (or '\r'), ^D, or fills the ring (kernel/console.c:235-238).
   */
  lemma KeyCommits(s: Input, c: bv8)
    requires InputOk(s) && c != CTRL_P && c != CTRL_U && c != CTRL_H && c != DEL
    ensures var t := Key(s, c);
      t.w == (if c != 0 && s.e - s.r < INPUT_BUF && (Cooked(c) == NL || Cooked(c) == CTRL_D || t.e == s.r + INPUT_BUF) then t.e else s.w)
  {
  }

  /** Backspace and delete remove the last byte of the line being edited, and nothing when it is empty (kernel/console.c:220-225). */
  lemma KeyErases(s: Input, c: bv8)
    requires InputOk(s) && (c == CTRL_H || c == DEL)
    ensures var t := Key(s, c);
      t.buf == s.buf && t.w == s.w
      && (s.e == s.w ==> t.e == s.e)
      && (s.e != s.w ==> Editing(t) == Editing(s)[..|Editing(s)| - 1])
  {
    if s.e != s.w {
      EditingPrefix(s, Key(s, c));
    }
  }

  /** ^U never erases below w, and erases back over no newline (kernel/console.c:213-219). */
  lemma KeyKills(s: Input)
    requires InputOk(s)
    ensures var t := Key(s, CTRL_U);
      t.buf == s.buf && t.w == s.w && Editing(t) <= Editing(s)
      && (forall i :: |Editing(t)| <= i < |Editing(s)| ==> Editing(s)[i] != NL)
      && (Editing(t) == [] || Editing(t)[|Editing(t)| - 1] == NL)
  {
    var t := Key(s, CTRL_U);
    EditingPrefix(s, t);
  }

  /** Moving e back shortens the line being edited and changes nothing else of it. */
  lemma EditingPrefix(s: Input, t: Input)
    requires InputOk(s) && t == s.(e := t.e) && s.w <= t.e <= s.e
    ensures InputOk(t) && Editing(t) == Editing(s)[..t.e - s.w]
  {
    forall i | 0 <= i < t.e - s.w
      ensures Editing(t)[i] == Editing(s)[i]
    {
      assert At(t, s.w + i) == At(s, s.w + i);
    }
  }

  // ---------------------------------------------------------------------
  // history_buff

  /** The number of lines the history keeps. */
  const HIST_LINES: nat := 3

  /**
   * The history ring `hist`: three INPUT_BUF-byte strings with their
   * `edited` marks, the entry being written and the position in it. The
   * `read` index belongs to the arrow-key code and is not part of this model.
   */
  datatype Hist = Hist(texts: seq<seq<bv8>>, edited: seq<bool>, write: nat, pos: nat)

  /**
   * The ring's shape, and: an entry marked edited is only ever the one
   * being written right after an end of line, with nothing written to it yet.
   */
  predicate HistOk(h: Hist)
  {
    |h.texts| == HIST_LINES && |h.texts[0]| == |h.texts[1]| == |h.texts[2]| == INPUT_BUF
    && |h.edited| == HIST_LINES && h.write < HIST_LINES && h.pos <= INPUT_BUF
    && (h.edited[h.write] ==> h.pos == 0)
  }

  function Blank(): seq<bv8>
  {
    seq(INPUT_BUF, _ => 0)
  }

  /** tp1, tp2 and tp3 as the kernel starts with them (kernel/console.c:255-264). */
  function FreshHist(): (h: Hist)
    ensures HistOk(h)
  {
    Hist([Blank(), Blank(), Blank()], [false, false, false], 0, 0)
  }

  /** The part of the current entry written since the last end of line. */
  function Line(h: Hist): seq<bv8>
    requires HistOk(h)
  {
    h.texts[h.write][..h.pos]
  }

  /**
   * history_buff (kernel/console.c:340-354) with the store into the
   * current entry made only while it has room: an end of line marks the
   * entry edited and moves to the next, modulo three; a byte into an
   * entry marked edited first blanks it.
   */
  function HistBuff(h: Hist, c: bv8, eol: bool): (g: Hist)
    requires HistOk(h)
    ensures HistOk(g)
  {
    if eol then
      Hist(h.texts, h.edited[h.write := true], (h.write + 1) % 3, 0)
    else
      var cleared := if h.edited[h.write] then h.(texts := h.texts[h.write := Blank()], edited := h.edited[h.write := false]) else h;
      if cleared.pos < INPUT_BUF then
        cleared.(texts := cleared.texts[h.write := cleared.texts[h.write][cleared.pos := c]], pos := cleared.pos + 1)
      else cleared
  }

  /**
   * history_buff as written: the store string[current_pos++] has no bound
   * check, so a byte at position INPUT_BUF lands outside the string
   * (None).
   */
  function HistBuffAsWritten(h: Hist, c: bv8, eol: bool): Option<Hist>
    requires HistOk(h)
  {
    if !eol && h.pos >= INPUT_BUF then None else Some(HistBuff(h, c, eol))
  }

  /** The two agree except on the out-of-bounds store. */
  lemma HistBuffAgrees(h: Hist, c: bv8, eol: bool)
    requires HistOk(h)
    ensures HistBuffAsWritten(h, c, eol) == Some(HistBuff(h, c, eol)) <==> eol || h.pos < INPUT_BUF
  {
  }

  /**
   * An end of line marks the entry edited, moves to the next entry modulo
   * three and back to its start, and changes no text (kernel/console.c:341-346).
   */
  lemma HistBuffEol(h: Hist, c: bv8)
    requires HistOk(h)
    ensures var g := HistBuff(h, c, true);
      g.texts == h.texts && g.edited[h.write] && g.write == (h.write + 1) % 3 && g.pos == 0
      && forall i :: 0 <= i < HIST_LINES && i != h.write ==> g.edited[i] == h.edited[i]
  {
  }

  /**
   * A byte extends the current line by itself; an entry marked edited is
   * blanked first, so nothing of the line it held survives, and the
   * other entries are untouched (kernel/console.c:347-353).
   */
  lemma HistBuffAppends(h: Hist, c: bv8)
    requires HistOk(h) && h.pos < INPUT_BUF
    ensures var g := HistBuff(h, c, false);
      g.write == h.write && !g.edited[g.write] && Line(g) == Line(h) + [c]
      && (h.edited[h.write] ==> g.texts[g.write] == Blank()[0 := c])
      && forall i :: 0 <= i < HIST_LINES && i != h.write ==> g.texts[i] == h.texts[i] && g.edited[i] == h.edited[i]
  {
    var g := HistBuff(h, c, false);
    if h.edited[h.write] {
      assert Line(g) == [c];
    } else {
      assert Line(g) == Line(h) + [c];
    }
  }

  /**
   * history_buff fed the bytes consoleread copies, in order: a newline
   * ends the line, any other byte is stored.
   */
  function HistLog(h: Hist, cs: seq<bv8>): (g: Hist)
    requires HistOk(h)
    ensures HistOk(g)
    decreases |cs|
  {
    if cs == [] then h else HistLog(HistBuff(h, cs[0], cs[0] == NL), cs[1..])
  }

  /** Without a newline, the position grows by one per byte until the entry is full. */
  lemma {:induction false} HistLogPos(h: Hist, cs: seq<bv8>)
    requires HistOk(h) && !h.edited[h.write] && forall i :: 0 <= i < |cs| ==> cs[i] != NL
    ensures HistLog(h, cs).pos == if h.pos + |cs| <= INPUT_BUF then h.pos + |cs| else INPUT_BUF
    ensures HistLog(h, cs).write == h.write && !HistLog(h, cs).edited[h.write]
    decreases |cs|
  {
    if cs != [] {
      HistLogPos(HistBuff(h, cs[0], false), cs[1..]);
    }
  }

  /**
   * The overrun is reachable: after a line of INPUT_BUF bytes without a
   * newline (a full ring commits it), the next byte is stored at
   * string[INPUT_BUF].
   */
  lemma HistOverrun(cs: seq<bv8>, c: bv8)
    requires |cs| == INPUT_BUF && forall i :: 0 <= i < |cs| ==> cs[i] != NL
    ensures HistBuffAsWritten(HistLog(FreshHist(), cs), c, false) == None
  {
    HistLogPos(FreshHist(), cs);
  }

  // ---------------------------------------------------------------------
  // consoleread

  /**
   * How consoleread ends: it returns ret (the bytes copied, or -1 when
   * the process was killed while waiting), or it is left asleep on
   * input.r waiting for a committed line.
   */
  datatype ReadEnd = Done(ret: int) | Asleep

  /**
   * What consoleread's loop does with the committed bytes: how it ends,
   * how many of them it consumed, the history then, and the bytes it
   * wrote to dst.
   */
  datatype Taken = Taken(end: ReadEnd, used: nat, hist: Hist, dst: seq<bv8>)

  /**
   * consoleread's loop (kernel/console.c:277-305) over the committed
   * bytes pending, from the history h, with n the bytes still wanted out
   * of target and killed the process's killed flag.
   */
  function ReadBytes(pending: seq<bv8>, h: Hist, n: int, target: int, killed: bool): (t: Taken)
    requires HistOk(h)
    ensures HistOk(t.hist) && |t.dst| <= t.used <= |t.dst| + 1 && t.used <= |pending|
    decreases |pending|
  {
    if n <= 0 then Taken(Done(target - n), 0, h, [])
    else if pending == [] then Taken(if killed then Done(-1) else Asleep, 0, h, [])
    else
      var c := pending[0];
      if c == CTRL_D then
        if n < target then Taken(Done(target - n), 0, HistBuff(h, c, true), [])
        else Taken(Done(target - n), 1, h, [])
      else if c == NL then Taken(Done(target - (n - 1)), 1, HistBuff(h, c, true), [c])
      else
        var rest := ReadBytes(pending[1..], HistBuff(h, c, false), n - 1, target, killed);
        Taken(rest.end, rest.used + 1, rest.hist, [c] + rest.dst)
  }

  /** Taking the reader's byte off the front of the committed bytes. */
  lemma CommittedTail(s: Input)
    requires InputOk(s) && s.r < s.w
    ensures Committed(s) == [At(s, s.r)] + Committed(s.(r := s.r + 1))
  {
    var t := s.(r := s.r + 1);
    forall i | 0 <= i < |Committed(t)|
      ensures Committed(t)[i] == Committed(s)[i + 1]
    {
      assert At(t, t.r + i) == At(s, s.r + (i + 1));
    }
    assert Committed(s)[1..] == Committed(t);
  }

  /**
   * A read t0 seen partway: what is already taken (dst, the reader having
   * moved from s0.r to s.r) followed by what the rest of the read, m bytes
   * still wanted, takes from the ring s with history h. Off the ring's
   * invariant, where no read runs, it is an arbitrary placeholder.
   */
  function Account(s: Input, h: Hist, s0: Input, m: int, target: int, killed: bool, dst: seq<bv8>): Taken
  {
    if InputOk(s) && HistOk(h) && s0.r <= s.r then
      var t := ReadBytes(Committed(s), h, m, target, killed);
      Taken(t.end, t.used + (s.r - s0.r), t.hist, dst + t.dst)
    else
      Taken(Asleep, 0, h, dst)
  }

  /** ReadBytes on the ring's committed bytes, by the byte at the reader's position. */
  lemma ReadFront(s: Input, h: Hist, m: int, target: int, killed: bool)
    requires InputOk(s) && HistOk(h) && s.r < s.w && m > 0
    ensures var c, t := At(s, s.r), ReadBytes(Committed(s), h, m, target, killed);
      && (c == CTRL_D && m < target ==> t == Taken(Done(target - m), 0, HistBuff(h, c, true), []))
      && (c == CTRL_D && m >= target ==> t == Taken(Done(target - m), 1, h, []))
      && (c == NL ==> t == Taken(Done(target - (m - 1)), 1, HistBuff(h, c, true), [c]))
      && (c != CTRL_D && c != NL ==>
          var rest := ReadBytes(Committed(s.(r := s.r + 1)), HistBuff(h, c, false), m - 1, target, killed);
          t == Taken(rest.end, rest.used + 1, rest.hist, [c] + rest.dst))
  {
    CommittedTail(s);
    assert Committed(s)[1..] == Committed(s.(r := s.r + 1));
  }

  /** Where consoleread stops: its end, the ring and the history then, and the bytes it wrote to dst. */
  datatype Reading = Reading(end: ReadEnd, inp: Input, hist: Hist, dst: seq<bv8>)

  /**
   * consoleread called for n bytes: the reader's position moves past the
   * bytes consumed and nothing else of the ring changes.
   */
  function ReadFrom(s: Input, h: Hist, n: int, killed: bool): (r: Reading)
    requires InputOk(s) && HistOk(h)
    ensures InputOk(r.inp) && HistOk(r.hist) && r.inp == s.(r := r.inp.r) && s.r <= r.inp.r <= s.w
  {
    var t := ReadBytes(Committed(s), h, n, n, killed);
    Reading(t.end, s.(r := s.r + t.used), t.hist, t.dst)
  }

  /**
   * The bytes consoleread copies are the first pending ones, in order; it
   * consumes one more only when that is a ^D (kernel/console.c:285-297).
   */
  lemma {:induction false} ReadTakes(pending: seq<bv8>, h: Hist, n: int, target: int, killed: bool)
    requires HistOk(h)
    ensures var t := ReadBytes(pending, h, n, target, killed);
      t.dst == pending[..|t.dst|] && (t.used == |t.dst| + 1 ==> pending[|t.dst|] == CTRL_D)
    decreases |pending|
  {
    if n > 0 && pending != [] && pending[0] != CTRL_D && pending[0] != NL {
      ReadTakes(pending[1..], HistBuff(h, pending[0], false), n - 1, target, killed);
    }
  }

  /**
   * consoleread copies the next committed bytes, in order, and the
   * reader moves past them, and past one ^D more when that ^D ended the
   * read without being saved.
   */
  lemma ReadCopies(s: Input, h: Hist, n: int, killed: bool)
    requires InputOk(s) && HistOk(h)
    ensures var r := ReadFrom(s, h, n, killed);
      r.dst == Committed(s)[..|r.dst|]
      && (r.inp.r == s.r + |r.dst| || (r.inp.r == s.r + |r.dst| + 1 && Committed(s)[|r.dst|] == CTRL_D))
  {
    ReadTakes(Committed(s), h, n, n, killed);
  }

  /**
   * What consoleread returns: -1 only when killed, else the number of
   * bytes copied (the number asked for less those still wanted), never
   * more than asked for; it stops after a newline and never copies a ^D
   * (kernel/console.c:280-308).
   */
  lemma {:induction false} ReadReturns(pending: seq<bv8>, h: Hist, n: int, target: int, killed: bool)
    requires HistOk(h) && n <= target
    ensures var t := ReadBytes(pending, h, n, target, killed);
      (n <= 0 ==> t.dst == []) && (n > 0 ==> |t.dst| <= n)
      && (t.end.Done? ==> t.end.ret == target - n + |t.dst| || (t.end.ret == -1 && killed))
      && (t.end.Asleep? ==> !killed)
      && (forall i :: 0 <= i < |t.dst| ==> t.dst[i] != CTRL_D)
      && (forall i :: 0 <= i < |t.dst| - 1 ==> t.dst[i] != NL)
    decreases |pending|
  {
    if n > 0 && pending != [] && pending[0] != CTRL_D && pending[0] != NL {
      ReadReturns(pending[1..], HistBuff(h, pending[0], false), n - 1, target, killed);
    }
  }

  /**
   * A read for n bytes returns fewer only when it was killed or is
   * asleep, or it stopped at a newline, at a ^D, or with no committed
   * byte left.
   */
  lemma ReadShort(s: Input, h: Hist, n: int, killed: bool)
    requires InputOk(s) && HistOk(h) && n > 0
    ensures var r := ReadFrom(s, h, n, killed);
      r.end == Done(n) || r.end == Done(-1) || r.end.Asleep?
      || (r.dst != [] && r.dst[|r.dst| - 1] == NL)
      || (|r.dst| < |Committed(s)| && Committed(s)[|r.dst|] == CTRL_D)
  {
    ReadShortFrom(Committed(s), h, n, n, killed);
  }

  lemma {:induction false} ReadShortFrom(pending: seq<bv8>, h: Hist, n: int, target: int, killed: bool)
    requires HistOk(h) && 0 < n <= target
    ensures var t := ReadBytes(pending, h, n, target, killed);
      t.end == Done(target) || t.end == Done(-1) || t.end.Asleep?
      || (t.dst != [] && t.dst[|t.dst| - 1] == NL)
      || (|t.dst| < |pending| && pending[|t.dst|] == CTRL_D)
    decreases |pending|
  {
    if pending != [] && pending[0] != CTRL_D && pending[0] != NL && n > 1 {
      ReadShortFrom(pending[1..], HistBuff(h, pending[0], false), n - 1, target, killed);
    }
  }

  /**
   * A ^D met after some bytes were copied is left in the ring, so the
   * next read, of any positive size, returns 0 and consumes it
   * (kernel/console.c:286-293).
   */
  lemma EofSaved(pending: seq<bv8>, h: Hist, n: int, target: int, m: int, killed: bool)
    requires HistOk(h) && 0 < n < target && m > 0 && pending != [] && pending[0] == CTRL_D
    ensures var t := ReadBytes(pending, h, n, target, killed);
      t.used == 0 && t.end == Done(target - n) && t.hist == HistBuff(h, CTRL_D, true)
    ensures var t := ReadBytes(pending, h, m, m, killed);
      t.end == Done(0) && t.dst == [] && t.used == 1 && t.hist == h
  {
  }

  /**
   * The history records the bytes consoleread copies, a newline as an end
   * of line, and one end of line more for a ^D saved for the next read
   * (kernel/console.c:288-304).
   */
  lemma {:induction false} ReadLogs(pending: seq<bv8>, h: Hist, n: int, target: int, killed: bool)
    requires HistOk(h)
    ensures var t := ReadBytes(pending, h, n, target, killed);
      t.hist == HistLog(h, t.dst)
      || (t.hist == HistBuff(HistLog(h, t.dst), CTRL_D, true) && t.used < |pending| && pending[t.used] == CTRL_D)
    decreases |pending|
  {
    if n > 0 && pending != [] {
      var c := pending[0];
      if c == NL {
        assert HistLog(h, [c]) == HistBuff(h, c, true);
      } else if c != CTRL_D {
        var t := ReadBytes(pending, h, n, target, killed);
        ReadLogs(pending[1..], HistBuff(h, c, false), n - 1, target, killed);
        assert t.dst[1..] == ReadBytes(pending[1..], HistBuff(h, c, false), n - 1, target, killed).dst;
      }
    }
  }

  // ---------------------------------------------------------------------
  // The kernel's console state

  /**
   * The history `hist`: the strings of its three tuples tp1, tp2 and tp3
   * (reached through hist.tuples), their edited flags, and the write index
   * and current position, all updated in place.
   */
  class History {
    const tp1: array<bv8>
    const tp2: array<bv8>
    const tp3: array<bv8>
    var edited: seq<bool>
    var write: nat
    var pos: nat

    /** Three distinct strings of INPUT_BUF bytes each. */
    predicate Shaped()
    {
      tp1.Length == INPUT_BUF && tp2.Length == INPUT_BUF && tp3.Length == INPUT_BUF
      && tp1 != tp2 && tp1 != tp3 && tp2 != tp3
    }

    /** The string of entry i. */
    function Entry(i: nat): array<bv8>
      requires i < HIST_LINES
    {
      if i == 0 then tp1 else if i == 1 then tp2 else tp3
    }

    function State(): Hist
      requires Shaped()
      reads this, tp1, tp2, tp3
    {
      Hist([tp1[..], tp2[..], tp3[..]], edited, write, pos)
    }

    ghost predicate Valid()
      reads this, tp1, tp2, tp3
    {
      Shaped() && HistOk(State())
    }

    constructor ()
      ensures Valid() && State() == FreshHist() && fresh(tp1) && fresh(tp2) && fresh(tp3)
    {
      tp1 := new bv8[INPUT_BUF](_ => 0);
      tp2 := new bv8[INPUT_BUF](_ => 0);
      tp3 := new bv8[INPUT_BUF](_ => 0);
      edited := [false, false, false];
      write, pos := 0, 0;
      new;
      assert tp1[..] == Blank() && tp2[..] == Blank() && tp3[..] == Blank();
    }

    /** history_buff (kernel/console.c:340-354), the store made only while the entry has room; proved against HistBuff. */
    method Buff(c: bv8, eol: bool)
      requires Valid()
      modifies this, tp1, tp2, tp3
      ensures Valid() && State() == HistBuff(old(State()), c, eol)
    {
      if eol {
        edited := edited[write := true];
        write := (write + 1) % 3;
        pos := 0;
        return;
      }
      if edited[write] {
        Clear();
        edited := edited[write := false];
      }
      if pos < INPUT_BUF {
        Entry(write)[pos] := c;
        pos := pos + 1;
      }
    }

    /** The loop of history_buff that blanks the entry being written. */
    method Clear()
      requires Valid()
      modifies Entry(write)
      ensures Valid() && State() == old(State()).(texts := old(State()).texts[write := Blank()])
    {
      var text := Entry(write);
      var i := 0;
      while i < INPUT_BUF
        invariant 0 <= i <= INPUT_BUF
        invariant forall j :: 0 <= j < i ==> text[j] == 0
      {
        text[i] := 0;
        i := i + 1;
      }
      assert text[..] == Blank();
    }
  }

  /** The console's input side: the ring `input` and the history `hist`, both updated in place. */
  class ConsoleInput {
    const buf: array<bv8>
    var r: nat
    var w: nat
    var e: nat
    const hist: History

    function Ring(): Input
      reads this, buf
    {
      Input(buf[..], r, w, e)
    }

    ghost predicate Valid()
      reads this, buf, hist, hist.tp1, hist.tp2, hist.tp3
    {
      InputOk(Ring()) && hist.Valid() && buf != hist.tp1 && buf != hist.tp2 && buf != hist.tp3
    }

    constructor (hist: History)
      requires hist.Valid()
      ensures Valid() && Ring() == Input(seq(INPUT_BUF, _ => 0), 0, 0, 0) && this.hist == hist
    {
      buf := new bv8[INPUT_BUF](_ => 0);
      r, w, e := 0, 0, 0;
      this.hist := hist;
    }

    /** The ^U loop of consoleintr (kernel/console.c:213-219), proved against KillLine. */
    method KillLineIn()
      requires InputOk(Ring())
      modifies this
      ensures Ring() == old(Ring()).(e := KillLine(old(Ring()), old(e)))
    {
      while e != w && buf[(e - 1) % 128] != NL
        invariant w <= e <= old(e) && Ring() == old(Ring()).(e := e)
        invariant KillLine(old(Ring()), old(e)) == KillLine(old(Ring()), e)
      {
        e := e - 1;
      }
    }

    /** consoleintr's switch for one byte (kernel/console.c:207-241), proved against Key. */
    method KeyIn(c: bv8)
      requires InputOk(Ring())
      modifies this, buf
      ensures Ring() == Key(old(Ring()), c)
    {
      if c == CTRL_P {
      } else if c == CTRL_U {
        KillLineIn();
      } else if c == CTRL_H || c == DEL {
        if e != w {
          e := e - 1;
        }
      } else if c != 0 && e - r < INPUT_BUF {
        var k := if c == CR then NL else c;
        if k != KEY_UP && k != KEY_DN {
          buf[e % 128] := k;
          e := e + 1;
        }
        if k == NL || k == CTRL_D || e == r + INPUT_BUF {
          w := e;
        }
      }
    }

    /**
     * consoleintr (kernel/console.c:198-249) given the bytes getc returns
     * before its negative end mark: the ring ends as Keys says, and a
     * process listing is asked for exactly when ^P was among the bytes.
     */
    method Intr(keys: seq<bv8>) returns (doprocdump: bool)
      requires InputOk(Ring())
      modifies this, buf
      ensures Ring() == Keys(old(Ring()), keys) && (doprocdump <==> CTRL_P in keys)
    {
      doprocdump := false;
      var i := 0;
      while i < |keys|
        invariant 0 <= i <= |keys| && InputOk(Ring())
        invariant Keys(Ring(), keys[i..]) == Keys(old(Ring()), keys)
        invariant doprocdump <==> CTRL_P in keys[..i]
      {
        var c := keys[i];
        if c == CTRL_P {
          doprocdump := true;
        }
        assert keys[i..][1..] == keys[i + 1..];
        KeyIn(c);
        assert keys[..i + 1] == keys[..i] + [c];
        i := i + 1;
      }
      assert keys[..i] == keys;
    }
  
    /**
     * Taking one committed byte (kernel/console.c:285-303): ^D ends the
     * read, saved for the next read when bytes were already copied; a
     * newline is copied and ends the read; any other byte is copied and
     * the read goes on. got is the byte copied, if any.
     */
    method Take(m: int, target: int, killed: bool) returns (stop: Option<ReadEnd>, got: seq<bv8>)
      requires Valid() && m > 0 && r < w
      modifies this, hist, hist.tp1, hist.tp2, hist.tp3
      ensures Valid() && Ring() == old(Ring()).(r := r) && old(r) <= r
      ensures var t := ReadBytes(Committed(old(Ring())), old(hist.State()), m, target, killed);
        stop.Some? ==> t == Taken(stop.value, r - old(r), hist.State(), got)
      ensures var t := ReadBytes(Committed(old(Ring())), old(hist.State()), m, target, killed);
        stop.None? ==> (r == old(r) + 1 && |got| == 1
          && var rest := ReadBytes(Committed(Ring()), hist.State(), m - 1, target, killed);
          t == Taken(rest.end, rest.used + 1, rest.hist, got + rest.dst))
    {
      ghost var s, h := Ring(), hist.State();
      ReadFront(s, h, m, target, killed);
      var c := buf[r % 128];
      r := r + 1;
      if c == CTRL_D {
        if m < target {
          r := r - 1;
          hist.Buff(c, true);
        }
        assert buf[..] == s.buf;
        return Some(Done(target - m)), [];
      }
      if c == NL {
        hist.Buff(c, true);
        assert buf[..] == s.buf;
        return Some(Done(target - (m - 1))), [c];
      }
      hist.Buff(c, false);
      assert buf[..] == s.buf;
      assert Ring() == s.(r := s.r + 1) && hist.State() == HistBuff(h, c, false);
      return None, [c];
    }

    /** The loop's account of the read, carried over one turn that copies got. */
    static lemma TakenJoin(t0: Taken, before: Taken, rest: Taken, dst: seq<bv8>, got: seq<bv8>, k: nat)
      requires t0 == Taken(before.end, before.used + k, before.hist, dst + before.dst)
      requires before == Taken(rest.end, rest.used + 1, rest.hist, got + rest.dst)
      ensures t0 == Taken(rest.end, rest.used + (k + 1), rest.hist, (dst + got) + rest.dst)
    {
      assert dst + (got + rest.dst) == (dst + got) + rest.dst;
    }

    /**
     * One turn of consoleread's loop (kernel/console.c:278-304): with no
     * committed byte the read ends, with -1 when the process is killed
     * and asleep otherwise; else one byte is taken. The whole read t0
     * stays accounted for.
     */
    method Turn(m: int, target: int, killed: bool, ghost t0: Taken, ghost s0: Input, ghost dst: seq<bv8>)
      returns (stop: Option<ReadEnd>, got: seq<bv8>)
      requires Valid() && m > 0 && Ring() == s0.(r := r) && s0.r <= r
      requires t0 == Account(Ring(), hist.State(), s0, m, target, killed, dst)
      modifies this, hist, hist.tp1, hist.tp2, hist.tp3
      ensures Valid() && Ring() == s0.(r := r) && s0.r <= r
      ensures stop.Some? ==> t0 == Taken(stop.value, r - s0.r, hist.State(), dst + got)
      ensures stop.None? ==> r == old(r) + 1 && t0 == Account(Ring(), hist.State(), s0, m - 1, target, killed, dst + got)
    {
      if r == w {
        stop, got := Some(if killed then Done(-1) else Asleep), [];
      } else {
        ghost var r0 := r;
        ghost var before := ReadBytes(Committed(Ring()), hist.State(), m, target, killed);
        assert t0 == Taken(before.end, before.used + (r0 - s0.r), before.hist, dst + before.dst);
        stop, got := Take(m, target, killed);
        if stop.None? {
          ghost var rest := ReadBytes(Committed(Ring()), hist.State(), m - 1, target, killed);
          assert before == Taken(rest.end, rest.used + 1, rest.hist, got + rest.dst);
          TakenJoin(t0, before, rest, dst, got, r0 - s0.r);
        }
      }
    }

    /**
     * consoleread's loop (kernel/console.c:277-304) with m of target bytes
     * still wanted: the rest of the read it does is the one t0 accounts for.
     */
    method ReadLoop(m: int, target: int, killed: bool, ghost t0: Taken, ghost s0: Input) returns (end: ReadEnd, dst: seq<bv8>)
      requires Valid() && Ring() == s0.(r := r) && s0.r <= r
      requires t0 == Account(Ring(), hist.State(), s0, m, target, killed, [])
      modifies this, hist, hist.tp1, hist.tp2, hist.tp3
      ensures Valid() && Ring() == s0.(r := r) && s0.r <= r
      ensures t0 == Taken(end, r - s0.r, hist.State(), dst)
    {
      var k := m;
      dst := [];
      while k > 0
        invariant Valid() && Ring() == s0.(r := r) && s0.r <= r
        invariant t0 == Account(Ring(), hist.State(), s0, k, target, killed, dst)
        decreases w - r
      {
        var stop, got := Turn(k, target, killed, t0, s0, dst);
        dst := dst + got;
        if stop.Some? {
          return stop.value, dst;
        }
        k := k - 1;
      }
      assert dst + [] == dst;
      return Done(target - k), dst;
    }

    /**
     * consoleread (kernel/console.c:269-310), proved against ReadFrom:
     * the result, the bytes written to dst, the ring and the history end
     * as ReadFrom says.
     */
    method Read(n: int, killed: bool) returns (end: ReadEnd, dst: seq<bv8>)
      requires Valid()
      modifies this, hist, hist.tp1, hist.tp2, hist.tp3
      ensures Valid()
      ensures var rd := ReadFrom(old(Ring()), old(hist.State()), n, killed);
        end == rd.end && dst == rd.dst && Ring() == rd.inp && hist.State() == rd.hist
    {
      ghost var s0 := Ring();
      ghost var t0 := ReadBytes(Committed(s0), hist.State(), n, n, killed);
      assert t0 == Account(Ring(), hist.State(), s0, n, n, killed, []);
      end, dst := ReadLoop(n, n, killed, t0, s0);
    }
  }
}
