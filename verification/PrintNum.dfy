/** Number formatting: the buffer work of `PrintNum`, and reading the text back. */
module PrintNum {
  import opened Options

  // ---- digits ----

  function DigitChar(v: nat, upcase: bool): (c: char)
    requires v < 36
    ensures DigitValue(c) == Some(v)
    ensures v >= 10 ==> if upcase then 'A' <= c <= 'Z' else 'a' <= c <= 'z'
  {
    if v <= 9 then ('0' as int + v) as char
    else if upcase then ('A' as int + v - 10) as char
    else ('a' as int + v - 10) as char
  }

  function DigitValue(c: char): (v: Option<nat>)
    ensures v.Some? ==> v.value < 36
  {
    if '0' <= c <= '9' then Some(c as int - '0' as int)
    else if 'A' <= c <= 'Z' then Some(c as int - 'A' as int + 10)
    else if 'a' <= c <= 'z' then Some(c as int - 'a' as int + 10)
    else None
  }

  /** `u / base` and `u % base`. */
  function Quotient(u: nat, base: nat): (q: nat)
    requires 2 <= base
    ensures q <= u && (u > 0 ==> q < u)
  {
    QuotientSmaller(u, base);
    u / base
  }

  function Remainder(u: nat, base: nat): (r: nat)
    requires 2 <= base
    ensures r < base
  {
    u % base
  }

  lemma QuotientSmaller(u: nat, base: nat)
    requires 2 <= base
    ensures 0 <= u / base <= u && (u > 0 ==> u / base < u)
  {
  }

  lemma DivisionLaw(u: nat, base: nat)
    requires 2 <= base
    ensures Quotient(u, base) * base + Remainder(u, base) == u
  {
  }

  predicate IsNumeral(s: string) {
    s != "" && forall i :: 0 <= i < |s| ==> DigitValue(s[i]).Some?
  }

  /** The numeral of `u`, most significant digit first. */
  function Numeral(u: nat, base: nat, upcase: bool): (s: string)
    requires 2 <= base <= 36
    ensures IsNumeral(s)
    decreases u, 1
  {
    HighDigits(u, base, upcase) + [DigitChar(Remainder(u, base), upcase)]
  }

  function HighDigits(u: nat, base: nat, upcase: bool): (s: string)
    requires 2 <= base <= 36
    ensures s == "" || IsNumeral(s)
    decreases u, 0
  {
    if Quotient(u, base) == 0 then "" else Numeral(Quotient(u, base), base, upcase)
  }

  /** The number a string of digits stands for; a character that is no digit counts as 0. */
  function Value(s: string, base: nat): nat {
    if s == "" then 0
    else Value(s[..|s| - 1], base) * base + (match DigitValue(s[|s| - 1]) case Some(v) => v case None => 0)
  }

  lemma {:induction false} ValueSnoc(s: string, c: char, base: nat)
    requires DigitValue(c).Some?
    ensures Value(s + [c], base) == Value(s, base) * base + DigitValue(c).value
  {
    assert (s + [c])[..|s|] == s;
  }

  lemma {:induction false} ValueOfNumeral(u: nat, base: nat, upcase: bool)
    requires 2 <= base <= 36
    ensures Value(Numeral(u, base, upcase), base) == u
  {
    var q := Quotient(u, base);
    if q != 0 {
      ValueOfNumeral(q, base, upcase);
    }
    assert Value(HighDigits(u, base, upcase), base) == q;
    ValueSnoc(HighDigits(u, base, upcase), DigitChar(Remainder(u, base), upcase), base);
    DivisionLaw(u, base);
  }

  /** Numerals carry no superfluous zeros. */
  lemma {:induction false} NoLeadingZero(u: nat, base: nat, upcase: bool)
    requires 2 <= base <= 36
    ensures Numeral(u, base, upcase)[0] == '0' <==> u == 0
  {
    if Quotient(u, base) != 0 {
      NoLeadingZero(Quotient(u, base), base, upcase);
    } else {
      DivisionLaw(u, base);
    }
  }

  function Repeat(c: char, n: nat): (s: string)
    ensures |s| == n && forall i :: 0 <= i < n ==> s[i] == c
  {
    seq(n, _ => c)
  }

  lemma {:induction false} ValueOfZeros(n: nat, base: nat)
    ensures Value(Repeat('0', n), base) == 0
  {
    if n > 0 {
      assert Repeat('0', n) == Repeat('0', n - 1) + ['0'];
      ValueOfZeros(n - 1, base);
      ValueSnoc(Repeat('0', n - 1), '0', base);
    }
  }

  lemma {:induction false} LeadingZeros(n: nat, s: string, base: nat)
    requires forall i :: 0 <= i < |s| ==> DigitValue(s[i]).Some?
    ensures Value(Repeat('0', n) + s, base) == Value(s, base)
    decreases |s|
  {
    if s == "" {
      assert Repeat('0', n) + s == Repeat('0', n);
      ValueOfZeros(n, base);
    } else {
      var front, last := s[..|s| - 1], s[|s| - 1];
      LeadingZeros(n, front, base);
      assert Repeat('0', n) + s == (Repeat('0', n) + front) + [last] && s == front + [last];
      ValueSnoc(Repeat('0', n) + front, last, base);
      ValueSnoc(front, last, base);
    }
  }

  // ---- the layout ----

  function Sign(neg: bool): string {
    if neg then "-" else ""
  }

  function Padding(width: int, have: nat): nat {
    if width > have then width - have else 0
  }

  /** A numeral with `n` characters of padding: the sign goes before a padding of zeros and after any other. */
  function Arrange(number: string, n: nat, neg: bool, ladjust: bool, padc: char): string {
    if ladjust then Sign(neg) + number + Repeat(' ', n)
    else if neg && padc == '0' then "-" + Repeat('0', n) + number
    else Repeat(padc, n) + Sign(neg) + number
  }

  /** The text of a number. */
  function Layout(u: nat, base: nat, neg: bool, width: int, ladjust: bool, padc: char, upcase: bool): string
    requires 2 <= base <= 36
  {
    var number := Numeral(u, base, upcase);
    Arrange(number, Padding(width, |number| + |Sign(neg)|), neg, ladjust, padc)
  }

  // ---- reading back ----

  function TrimLeft(s: string, c: char): string {
    if s != "" && s[0] == c then TrimLeft(s[1..], c) else s
  }

  function TrimRight(s: string, c: char): string {
    if s != "" && s[|s| - 1] == c then TrimRight(s[..|s| - 1], c) else s
  }

  /** The signed number in a padded text: strip the padding on its side, zeros excepted, and parse. */
  function Read(s: string, base: nat, ladjust: bool, padc: char): int {
    ReadCore(if ladjust then TrimRight(s, ' ') else if padc == '0' then s else TrimLeft(s, padc), base)
  }

  lemma {:induction false} TrimLeftRepeat(c: char, n: nat, s: string)
    ensures TrimLeft(Repeat(c, n) + s, c) == TrimLeft(s, c)
  {
    if n == 0 {
      assert Repeat(c, n) + s == s;
    } else {
      assert (Repeat(c, n) + s)[1..] == Repeat(c, n - 1) + s;
      TrimLeftRepeat(c, n - 1, s);
    }
  }

  lemma {:induction false} TrimLeftSplits(s: string, c: char) returns (k: nat)
    ensures k <= |s| && s == Repeat(c, k) + TrimLeft(s, c) && (s != "" && s[0] == c ==> k > 0)
  {
    if s != "" && s[0] == c {
      var j := TrimLeftSplits(s[1..], c);
      k := j + 1;
      assert s == [c] + s[1..] && Repeat(c, k) == [c] + Repeat(c, j);
    } else {
      k := 0;
      assert s == Repeat(c, 0) + s;
    }
  }

  lemma {:induction false} TrimRightRepeat(c: char, n: nat, s: string)
    requires s != "" ==> s[|s| - 1] != c
    ensures TrimRight(s + Repeat(c, n), c) == s
  {
    if n == 0 {
      assert s + Repeat(c, n) == s;
    } else {
      var t := s + Repeat(c, n);
      assert t[..|t| - 1] == s + Repeat(c, n - 1);
      TrimRightRepeat(c, n - 1, s);
    }
  }

  function Signed(u: nat, neg: bool): int {
    if neg then -(u as int) else u
  }

  /** The signed number in a text without padding. */
  function ReadCore(t: string, base: nat): int {
    if t != "" && t[0] == '-' then -(Value(t[1..], base) as int) else Value(t, base)
  }

  function Core(u: nat, base: nat, neg: bool, upcase: bool, zeros: nat): string
    requires 2 <= base <= 36
  {
    Sign(neg) + (Repeat('0', zeros) + Numeral(u, base, upcase))
  }

  lemma SignThenBody(body: string)
    ensures (Sign(true) + body)[0] == '-' && (Sign(true) + body)[1..] == body && Sign(false) + body == body
  {
  }

  lemma ReadSigned(body: string, base: nat, neg: bool)
    requires IsNumeral(body)
    ensures ReadCore(Sign(neg) + body, base) == Signed(Value(body, base), neg)
  {
    SignThenBody(body);
    assert DigitValue(body[0]).Some?;
  }

  lemma ReadsCore(u: nat, base: nat, neg: bool, upcase: bool, zeros: nat)
    requires 2 <= base <= 36
    ensures ReadCore(Core(u, base, neg, upcase, zeros), base) == Signed(u, neg)
  {
    var number := Numeral(u, base, upcase);
    LeadingZeros(zeros, number, base);
    ValueOfNumeral(u, base, upcase);
    var body := Repeat('0', zeros) + number;
    assert IsNumeral(body);
    ReadSigned(body, base, neg);
  }

  lemma ArrangeParts(number: string, n: nat, neg: bool, ladjust: bool, padc: char)
    ensures Arrange(number, n, neg, ladjust, padc) ==
      if ladjust then (Sign(neg) + number) + Repeat(' ', n)
      else if padc == '0' then Sign(neg) + (Repeat('0', n) + number)
      else Repeat(padc, n) + (Sign(neg) + number)
  {
    if !ladjust && padc != '0' {
      assert Repeat(padc, n) + Sign(neg) + number == Repeat(padc, n) + (Sign(neg) + number);
    } else if !ladjust && !neg {
      assert Repeat('0', n) + "" + number == "" + (Repeat('0', n) + number);
    } else if !ladjust {
      assert "-" + Repeat('0', n) + number == "-" + (Repeat('0', n) + number);
    }
  }

  lemma PlainCore(u: nat, base: nat, neg: bool, upcase: bool)
    requires 2 <= base <= 36
    ensures Core(u, base, neg, upcase, 0) == Sign(neg) + Numeral(u, base, upcase)
  {
    assert Repeat('0', 0) + Numeral(u, base, upcase) == Numeral(u, base, upcase);
  }

  /** The text is its core with spaces after it, with zeros in it, or with padding before it. */
  lemma LayoutParts(u: nat, base: nat, neg: bool, width: int, ladjust: bool, padc: char, upcase: bool)
    requires 2 <= base <= 36
    ensures var n := Padding(width, |Numeral(u, base, upcase)| + |Sign(neg)|);
      Layout(u, base, neg, width, ladjust, padc, upcase) ==
        if ladjust then Core(u, base, neg, upcase, 0) + Repeat(' ', n)
        else if padc == '0' then Core(u, base, neg, upcase, n)
        else Repeat(padc, n) + Core(u, base, neg, upcase, 0)
  {
    var number := Numeral(u, base, upcase);
    PlainCore(u, base, neg, upcase);
    ArrangeParts(number, Padding(width, |number| + |Sign(neg)|), neg, ladjust, padc);
  }

  lemma {:induction false} ValueAtLeast(x: string, y: string, base: nat)
    requires base >= 1
    ensures Value(x + y, base) >= Value(x, base) + Value(y, base)
    decreases |y|
  {
    if y == "" {
      assert x + y == x;
    } else {
      var m := |y| - 1;
      ValueAtLeast(x, y[..m], base);
      assert (x + y)[..|x + y| - 1] == x + y[..m];
      ScaledAtLeast(Value(x + y[..m], base), Value(x, base), Value(y[..m], base), base);
    }
  }

  lemma ScaledAtLeast(w: nat, a: nat, b: nat, base: nat)
    requires w >= a + b && base >= 1
    ensures w * base >= a + b * base
  {
    assert w * base >= (a + b) * base == a * base + b * base;
    assert a * base >= a;
  }

  lemma {:induction false} RepeatedDigitCounts(c: char, k: nat, base: nat)
    requires k > 0 && base >= 1 && DigitValue(c).Some? && DigitValue(c).value > 0
    ensures Value(Repeat(c, k), base) > 0
  {
    assert Repeat(c, k) == Repeat(c, k - 1) + [c];
    ValueSnoc(Repeat(c, k - 1), c, base);
  }

  /** Stripping a digit other than 0 from the front of a numeral changes the number. */
  lemma StrippedDigitLost(number: string, c: char, base: nat)
    requires IsNumeral(number) && number[0] == c != '0' && base >= 1 && DigitValue(c) != Some(0)
    ensures Value(TrimLeft(number, c), base) < Value(number, base)
    ensures TrimLeft(number, c) == "" || TrimLeft(number, c)[0] != '-'
  {
    var k := TrimLeftSplits(number, c);
    var rest := TrimLeft(number, c);
    RepeatedDigitCounts(c, k, base);
    ValueAtLeast(Repeat(c, k), rest, base);
    if rest != "" {
      assert rest[0] == number[k] && DigitValue(number[k]).Some?;
    }
  }

  function FirstChar(u: nat, base: nat, neg: bool, upcase: bool): char
    requires 2 <= base <= 36
  {
    if neg then '-' else Numeral(u, base, upcase)[0]
  }

  /** Reading a core whose first character is the padding: the sign or the leading digits are gone. */
  lemma StrippedCore(u: nat, base: nat, neg: bool, upcase: bool, padc: char)
    requires 2 <= base <= 36 && padc != '0' && padc == FirstChar(u, base, neg, upcase)
    ensures ReadCore(TrimLeft(Core(u, base, neg, upcase, 0), padc), base) == Signed(u, neg) <==> u == 0
  {
    var number := Numeral(u, base, upcase);
    assert Repeat('0', 0) + number == number;
    ValueOfNumeral(u, base, upcase);
    NoLeadingZero(u, base, upcase);
    assert DigitValue(number[0]).Some?;
    if neg {
      SignThenBody(number);
      assert TrimLeft(Sign(true) + number, '-') == number;
    } else {
      SignThenBody(number);
      NonZeroDigit(number[0]);
      StrippedDigitLost(number, padc, base);
    }
  }

  lemma NonZeroDigit(c: char)
    ensures DigitValue(c) == Some(0) ==> c == '0'
  {
  }

  lemma CoreFirst(u: nat, base: nat, neg: bool, upcase: bool)
    requires 2 <= base <= 36
    ensures var core := Core(u, base, neg, upcase, 0);
      core != "" && core[0] == FirstChar(u, base, neg, upcase) && core[|core| - 1] != ' '
  {
    var number := Numeral(u, base, upcase);
    assert Repeat('0', 0) + number == number;
    assert DigitValue(number[|number| - 1]).Some?;
  }

  lemma ReadStripsRight(core: string, n: nat, base: nat, padc: char)
    requires core != "" && core[|core| - 1] != ' '
    ensures Read(core + Repeat(' ', n), base, true, padc) == ReadCore(core, base)
  {
    TrimRightRepeat(' ', n, core);
  }

  lemma ReadStripsLeft(core: string, n: nat, base: nat, padc: char)
    requires padc != '0'
    ensures Read(Repeat(padc, n) + core, base, false, padc) == ReadCore(TrimLeft(core, padc), base)
  {
    TrimLeftRepeat(padc, n, core);
  }

  /** Reading a text back reads its core, with the padding character stripped from its front if it is padded there. */
  lemma ReadOfLayout(u: nat, base: nat, neg: bool, width: int, ladjust: bool, padc: char, upcase: bool)
    requires 2 <= base <= 36
    ensures Read(Layout(u, base, neg, width, ladjust, padc, upcase), base, ladjust, padc) ==
      if ladjust || padc == '0' then Signed(u, neg)
      else ReadCore(TrimLeft(Core(u, base, neg, upcase, 0), padc), base)
  {
    var n := Padding(width, |Numeral(u, base, upcase)| + |Sign(neg)|);
    LayoutParts(u, base, neg, width, ladjust, padc, upcase);
    if ladjust {
      CoreFirst(u, base, neg, upcase);
      ReadsCore(u, base, neg, upcase, 0);
      ReadStripsRight(Core(u, base, neg, upcase, 0), n, base, padc);
    } else if padc == '0' {
      ReadsCore(u, base, neg, upcase, n);
    } else {
      ReadStripsLeft(Core(u, base, neg, upcase, 0), n, base, padc);
    }
  }

  /**
   Stripping the padding and parsing gives back the signed value, for every number, base, sign, width,
   adjustment and padding, exactly unless the text starts with its own padding character on the right.
   */
  lemma PrintReadRoundTrip(u: nat, base: nat, neg: bool, width: int, ladjust: bool, padc: char, upcase: bool)
    requires 2 <= base <= 36
    ensures Read(Layout(u, base, neg, width, ladjust, padc, upcase), base, ladjust, padc) == Signed(u, neg) <==>
      ladjust || padc == '0' || padc != FirstChar(u, base, neg, upcase) || u == 0
  {
    ReadOfLayout(u, base, neg, width, ladjust, padc, upcase);
    if !ladjust && padc != '0' {
      if padc == FirstChar(u, base, neg, upcase) {
        StrippedCore(u, base, neg, upcase, padc);
      } else {
        CoreFirst(u, base, neg, upcase);
        ReadsCore(u, base, neg, upcase, 0);
      }
    }
  }

  /** The length is the larger of the width and the digits plus sign. */
  lemma LayoutLength(u: nat, base: nat, neg: bool, width: int, ladjust: bool, padc: char, upcase: bool)
    requires 2 <= base <= 36
    ensures var have := |Numeral(u, base, upcase)| + |Sign(neg)|;
      |Layout(u, base, neg, width, ladjust, padc, upcase)| == if width > have then width else have
  {
  }

  // ---- the code ----

  function Reversed(s: string): (r: string)
    ensures |r| == |s| && forall i :: 0 <= i < |s| ==> r[i] == s[|s| - 1 - i]
  {
    seq(|s|, i requires 0 <= i < |s| => s[|s| - 1 - i])
  }

  /** The numeral `text` is what is still to come, the numeral of `v` if `more`, and the reverse of what is out. */
  predicate Generated(text: string, v: nat, base: nat, upcase: bool, more: bool, out_: string)
    requires 2 <= base <= 36
  {
    text == (if more then Numeral(v, base, upcase) else "") + Reversed(out_)
  }

  lemma DigitStep(text: string, v: nat, base: nat, upcase: bool, out_: string)
    requires 2 <= base <= 36 && Generated(text, v, base, upcase, true, out_)
    ensures |out_| < |text|
    ensures Generated(text, Quotient(v, base), base, upcase, Quotient(v, base) != 0,
                      out_ + [DigitChar(Remainder(v, base), upcase)])
  {
    var c := DigitChar(Remainder(v, base), upcase);
    assert Reversed(out_ + [c]) == [c] + Reversed(out_);
    assert (HighDigits(v, base, upcase) + [c]) + Reversed(out_) == HighDigits(v, base, upcase) + ([c] + Reversed(out_));
  }

  method Put(buf: array<char>, p: nat, c: char)
    requires p < buf.Length
    modifies buf
    ensures buf[..p + 1] == old(buf[..p]) + [c] && buf[p + 1..] == old(buf[p + 1..])
  {
    buf[p] := c;
  }

  /** The digit loop: the numeral of `u`, least significant digit first. */
  method PutDigits(buf: array<char>, u: nat, base: nat, upcase: bool) returns (p: nat)
    requires 2 <= base <= 36 && |Numeral(u, base, upcase)| <= buf.Length
    modifies buf
    ensures p == |Numeral(u, base, upcase)| && buf[..p] == Reversed(Numeral(u, base, upcase))
    ensures buf[p..] == old(buf[p..])
  {
    p := 0;
    var v, more := u, true;
    ghost var text := Numeral(u, base, upcase);
    assert Reversed(buf[..0]) == "";
    while more
      invariant p <= buf.Length && buf[p..] == old(buf[p..])
      invariant Generated(text, v, base, upcase, more, buf[..p])
      decreases if more then v + 1 else 0
    {
      DigitStep(text, v, base, upcase, buf[..p]);
      Put(buf, p, DigitChar(Remainder(v, base), upcase));
      p := p + 1;
      v := Quotient(v, base);
      more := v != 0;
    }
    ReversedTwice(buf[..p]);
  }

  /** The padding loops. */
  method Fill(buf: array<char>, from: nat, to: nat, c: char)
    requires from <= to <= buf.Length
    modifies buf
    ensures buf[..from] == old(buf[..from]) && buf[from..to] == Repeat(c, to - from) && buf[to..] == old(buf[to..])
  {
    var i := from;
    while i < to
      invariant from <= i <= to
      invariant buf[..from] == old(buf[..from]) && buf[from..i] == Repeat(c, i - from) && buf[i..] == old(buf[i..])
    {
      buf[i] := c;
      i := i + 1;
    }
  }

  /** The reversal loop on the first `n` characters. */
  method ReverseFront(buf: array<char>, n: nat)
    requires n <= buf.Length
    modifies buf
    ensures buf[..n] == Reversed(old(buf[..n])) && buf[n..] == old(buf[n..])
  {
    var begin, end := 0, n - 1;
    while end > begin
      invariant 0 <= begin && begin + end == n - 1 && begin <= end + 1
      invariant forall k :: 0 <= k < begin ==> buf[k] == old(buf[n - 1 - k]) && buf[n - 1 - k] == old(buf[k])
      invariant forall k :: begin <= k <= end ==> buf[k] == old(buf[k])
      invariant buf[n..] == old(buf[n..])
    {
      buf[begin], buf[end] := buf[end], buf[begin];
      begin, end := begin + 1, end - 1;
    }
    assert forall k :: 0 <= k < n ==> buf[k] == old(buf[n - 1 - k]);
  }

  /** What stands in the buffer before the reversal: the reverse of the part that will be reversed. */
  function Backwards(u: nat, base: nat, neg: bool, width: int, ladjust: bool, padc: char, upcase: bool): string
    requires 2 <= base <= 36
  {
    var number := Numeral(u, base, upcase);
    ArrangeBack(Reversed(number), Padding(width, |number| + |Sign(neg)|), neg, ladjust, padc)
  }

  function ArrangeBack(low: string, n: nat, neg: bool, ladjust: bool, padc: char): string {
    if neg && !ladjust && padc == '0' then low + Repeat('0', n) + "-"
    else low + Sign(neg) + Repeat(if ladjust then ' ' else padc, n)
  }

  lemma ReversedTwice(s: string)
    ensures Reversed(Reversed(s)) == s
  {
  }

  lemma ReversedConcat(a: string, b: string, c: string)
    ensures Reversed(a + b + c) == Reversed(c) + Reversed(b) + Reversed(a)
  {
  }

  lemma ReversedSame(n: nat, c: char, neg: bool)
    ensures Reversed(Repeat(c, n)) == Repeat(c, n) && Reversed(Sign(neg)) == Sign(neg) && Reversed("-") == "-"
  {
  }

  lemma Halves(low: string, sign: string, pad: string)
    ensures (low + sign + pad)[..|low| + |sign|] == low + sign && (low + sign + pad)[|low| + |sign|..] == pad
    ensures Reversed(low + sign) == Reversed(sign) + Reversed(low)
  {
  }

  lemma ArrangedReversed(number: string, n: nat, neg: bool, ladjust: bool, padc: char)
    ensures var back, have := ArrangeBack(Reversed(number), n, neg, ladjust, padc), |number| + |Sign(neg)|;
      && |back| == |Arrange(number, n, neg, ladjust, padc)| >= have
      && Arrange(number, n, neg, ladjust, padc) == if ladjust then Reversed(back[..have]) + back[have..]
           else Reversed(back)
  {
    var low := Reversed(number);
    ReversedTwice(number);
    ReversedSame(n, padc, neg);
    if ladjust {
      Halves(low, Sign(neg), Repeat(' ', n));
    } else if neg && padc == '0' {
      ReversedConcat(low, Repeat('0', n), "-");
    } else {
      ReversedConcat(low, Sign(neg), Repeat(padc, n));
    }
  }

  /** Reversing the part that the code reverses gives the layout. */
  lemma BackwardsReversed(u: nat, base: nat, neg: bool, width: int, ladjust: bool, padc: char, upcase: bool)
    requires 2 <= base <= 36
    ensures var back, have := Backwards(u, base, neg, width, ladjust, padc, upcase),
      |Numeral(u, base, upcase)| + |Sign(neg)|;
      && |back| == |Layout(u, base, neg, width, ladjust, padc, upcase)| >= have
      && Layout(u, base, neg, width, ladjust, padc, upcase) ==
         if ladjust then Reversed(back[..have]) + back[have..] else Reversed(back)
  {
    var number := Numeral(u, base, upcase);
    ArrangedReversed(number, Padding(width, |number| + |Sign(neg)|), neg, ladjust, padc);
  }

  /** The padding, after the digits `low` and the sign; with a padding of zeros the sign moves behind it. */
  method PutPadding(buf: array<char>, actual: nat, length: nat, neg: bool, ladjust: bool, padc: char, ghost low: string)
    requires actual <= length <= buf.Length && actual == |low| + |Sign(neg)| && buf[..actual] == low + Sign(neg)
    modifies buf
    ensures buf[..length] == ArrangeBack(low, length - actual, neg, ladjust, padc) &&
      buf[length..] == old(buf[length..])
  {
    var pad := if ladjust then ' ' else padc;
    if neg && !ladjust && pad == '0' {
      assert buf[..actual - 1] == low;
      Fill(buf, actual - 1, length - 1, pad);
      buf[length - 1] := '-';
    } else {
      Fill(buf, actual, length, pad);
    }
  }

  /** The digits and the sign, backwards. */
  method PutNumber(buf: array<char>, u: nat, base: nat, neg: bool, upcase: bool) returns (actual: nat)
    requires 2 <= base <= 36 && |Numeral(u, base, upcase)| + |Sign(neg)| <= buf.Length
    modifies buf
    ensures actual == |Numeral(u, base, upcase)| + |Sign(neg)|
    ensures buf[..actual] == Reversed(Numeral(u, base, upcase)) + Sign(neg) && buf[actual..] == old(buf[actual..])
  {
    actual := PutDigits(buf, u, base, upcase);
    if neg {
      ghost var rest := old(buf[actual..]);
      assert rest[1..] == old(buf[actual + 1..]);
      Put(buf, actual, '-');
      actual := actual + 1;
    }
  }

  method PutBackwards(buf: array<char>, u: nat, base: nat, neg: bool, width: int, ladjust: bool, padc: char,
                      upcase: bool)
      returns (actual: nat, length: nat)
    requires 2 <= base <= 36 && |Layout(u, base, neg, width, ladjust, padc, upcase)| <= buf.Length
    modifies buf
    ensures actual == |Numeral(u, base, upcase)| + |Sign(neg)| &&
      length == |Layout(u, base, neg, width, ladjust, padc, upcase)|
    ensures buf[..length] == Backwards(u, base, neg, width, ladjust, padc, upcase) &&
      buf[length..] == old(buf[length..])
  {
    LayoutLength(u, base, neg, width, ladjust, padc, upcase);
    actual := PutNumber(buf, u, base, neg, upcase);
    length := if width < actual then actual else width;
    assert buf[length..] == old(buf[actual..])[length - actual..] == old(buf[length..]);
    PutPadding(buf, actual, length, neg, ladjust, padc, Reversed(Numeral(u, base, upcase)));
  }

  /** `PrintNum`. */
  method PrintNum(buf: array<char>, u: nat, base: nat, neg: bool, width: int, ladjust: bool, padc: char, upcase: bool)
      returns (length: nat)
    requires 2 <= base <= 36 && |Layout(u, base, neg, width, ladjust, padc, upcase)| <= buf.Length
    modifies buf
    ensures length == |Layout(u, base, neg, width, ladjust, padc, upcase)|
    ensures buf[..length] == Layout(u, base, neg, width, ladjust, padc, upcase) && buf[length..] == old(buf[length..])
  {
    var actual;
    actual, length := PutBackwards(buf, u, base, neg, width, ladjust, padc, upcase);
    BackwardsReversed(u, base, neg, width, ladjust, padc, upcase);
    TurnAround(buf, if ladjust then actual else length, length);
  }

  /** Reversing a front part of the first `length` characters. */
  method TurnAround(buf: array<char>, n: nat, length: nat)
    requires n <= length <= buf.Length
    modifies buf
    ensures buf[..length] == Reversed(old(buf[..length])[..n]) + old(buf[..length])[n..] &&
      buf[length..] == old(buf[length..])
  {
    ghost var was := buf[..length];
    assert was[..n] == buf[..n];
    ReverseFront(buf, n);
    assert buf[..length] == buf[..n] + buf[n..][..length - n];
  }
}
