/** The seek command of the server: how a received chunk is told apart from data, and what the two
    numbers in it become. Numbers are read as section 7.22.1.4 of ISO/IEC 9899:2011 says of
    `strtoul` in base 10, with a 64-bit `unsigned long`. */
module SeekCommand {
  import opened Machine
  import opened DeviceLog
  import AesdDevice

  function Ascii(s: string): Bytes
    requires forall i :: 0 <= i < |s| ==> s[i] as int < 256
  {
    seq(|s|, i requires 0 <= i < |s| => s[i] as int as Byte)
  }

  const COMMAND: Bytes := Ascii("AESDCHAR_IOCSEEKTO:")
  const PLUS: Byte := 43
  const COMMA: Byte := 44
  const MINUS: Byte := 45
  const ULONG_MAX: nat := TWO_64 - 1

  predicate IsDigit(c: Byte) {
    48 <= c <= 57
  }

  predicate IsSpace(c: Byte) {
    c == 32 || 9 <= c <= 13
  }

  function SkipSpace(b: Bytes, i: nat): nat
    decreases |b| - i
  {
    if i < |b| && IsSpace(b[i]) then SkipSpace(b, i + 1) else i
  }

  /** The number that starts with `acc` and goes on with the digits from `i`, and where they end. */
  function Digits(b: Bytes, i: nat, acc: nat): (nat, nat)
    decreases |b| - i
  {
    if i < |b| && IsDigit(b[i]) then Digits(b, i + 1, acc * 10 + (b[i] as nat - 48)) else (acc, i)
  }

  /** The value read from `start` and the place where reading stopped. */
  function Strtoul(b: Bytes, start: nat): (nat, nat) {
    var i := SkipSpace(b, start);
    var signed := i < |b| && (b[i] == PLUS || b[i] == MINUS);
    var j := if signed then i + 1 else i;
    var (v, k) := Digits(b, j, 0);
    if k == j then (0, start)
    else if v > ULONG_MAX then (ULONG_MAX, k)
    else if signed && b[i] == MINUS then ((TWO_64 - v) % TWO_64, k)
    else (v, k)
  }

  /** The comparison of the first bytes of the receive buffer with the command. */
  predicate IsCommand(chunk: Bytes) {
    COMMAND <= chunk
  }

  /** The request of a command: each number is cut to 32 bits. */
  function ParseSeek(chunk: Bytes): AesdDevice.SeekTo
    requires IsCommand(chunk)
  {
    var (cmd, end) := Strtoul(chunk, |COMMAND|);
    var (off, _) := Strtoul(chunk, end + 1);
    AesdDevice.SeekTo(cmd % TWO_32, off % TWO_32)
  }

  function Decimal(n: nat): (d: Bytes)
    ensures |d| > 0 && forall i :: 0 <= i < |d| ==> IsDigit(d[i])
  {
    if n < 10 then [(48 + n) as Byte] else Decimal(n / 10) + [(48 + n % 10) as Byte]
  }

  /** The command a client sends for two numbers. */
  function FormatSeek(x: nat, y: nat): Bytes {
    COMMAND + Decimal(x) + [COMMA] + Decimal(y) + [NEWLINE]
  }

  /** The command for 1 and 2, byte by byte: `AESDCHAR_IOCSEEKTO:1,2` and a newline. */
  lemma FormatText()
    ensures FormatSeek(1, 2)
         == [65, 69, 83, 68, 67, 72, 65, 82, 95, 73, 79, 67, 83, 69, 69, 75, 84, 79, 58, 49, 44, 50, 10]
  {
  }

  function Pow10(k: nat): nat {
    if k == 0 then 1 else 10 * Pow10(k - 1)
  }

  lemma {:induction false} DecimalLength(n: nat, k: nat)
    requires k > 0 && n < Pow10(k)
    ensures |Decimal(n)| <= k
  {
    if n >= 10 {
      DecimalLength(n / 10, k - 1);
    }
  }

  /** The command of two 32-bit numbers is short. */
  lemma FormatIsShort(x: UInt32, y: UInt32)
    ensures |FormatSeek(x, y)| <= |COMMAND| + 22 && |COMMAND| == 19
  {
    assert Pow10(5) == 100000;
    assert Pow10(10) == 100000 * Pow10(5) by {
      assert Pow10(10) == 10 * (10 * (10 * (10 * (10 * Pow10(5)))));
    }
    DecimalLength(x, 10);
    DecimalLength(y, 10);
  }

  lemma {:induction false} DigitsOfDecimal(pre: Bytes, n: nat, post: Bytes)
    ensures var b := pre + Decimal(n) + post;
            Digits(b, |pre|, 0) == Digits(b, |pre| + |Decimal(n)|, n)
  {
    var b := pre + Decimal(n) + post;
    if n < 10 {
      assert b[|pre|] == (48 + n) as Byte;
    } else {
      var d := (48 + n % 10) as Byte;
      DigitsOfDecimal(pre, n / 10, [d] + post);
      assert pre + Decimal(n / 10) + ([d] + post) == b;
      assert b[|pre| + |Decimal(n / 10)|] == d;
    }
  }

  /** Reading back a decimal number, up to the largest `unsigned long`. */
  lemma StrtoulOfDecimal(pre: Bytes, n: nat, post: Bytes)
    requires post != [] && !IsDigit(post[0])
    ensures Strtoul(pre + Decimal(n) + post, |pre|)
         == (if n > ULONG_MAX then ULONG_MAX else n, |pre| + |Decimal(n)|)
  {
    hide Strtoul;
    assert pre + [] + [] == pre;
    StrtoulOfNumber(pre, [], [], n, post);
  }

  /** A minus sign negates modulo 2^64, as long as the digits fit. */
  lemma StrtoulOfNegative(pre: Bytes, n: nat, post: Bytes)
    requires post != [] && !IsDigit(post[0]) && n <= ULONG_MAX
    ensures Strtoul(pre + [MINUS] + Decimal(n) + post, |pre|) == ((TWO_64 - n) % TWO_64, |pre| + 1 + |Decimal(n)|)
  {
    hide Strtoul;
    assert pre + [] == pre;
    StrtoulOfNumber(pre, [], [MINUS], n, post);
  }

  lemma {:induction false} SkipSpaceRun(b: Bytes, i: nat, j: nat)
    requires i <= j <= |b| && forall k :: i <= k < j ==> b[k] == 32 || 9 <= b[k] <= 13
    requires j < |b| ==> b[j] != 32 && !(9 <= b[j] <= 13)
    ensures SkipSpace(b, i) == j
    decreases j - i
  {
    if i < j {
      SkipSpaceRun(b, i + 1, j);
    }
  }

  /** Reading a number: any run of blanks (byte 32, or 9 to 13) and then one sign at most are passed over; the
      digits that follow are read up to the first byte that is no digit (48 to 57), or the end. */
  lemma StrtoulOfNumber(pre: Bytes, blanks: Bytes, sign: Bytes, n: nat, post: Bytes)
    requires forall i :: 0 <= i < |blanks| ==> blanks[i] == 32 || 9 <= blanks[i] <= 13
    requires sign in {[], [43], [45]} && (post == [] || !(48 <= post[0] <= 57))
    ensures Strtoul(pre + blanks + sign + Decimal(n) + post, |pre|)
         == (if n >= 0x1_0000_0000_0000_0000 then 0xFFFF_FFFF_FFFF_FFFF
             else if sign == [45] && n > 0 then 0x1_0000_0000_0000_0000 - n else n,
             |pre| + |blanks| + |sign| + |Decimal(n)|)
  {
    hide SkipSpace, Digits, Decimal;
    var front, rest := pre + blanks + sign, sign + Decimal(n) + post;
    var b := front + Decimal(n) + post;
    assert b == pre + blanks + rest;
    assert rest[0] == if sign == [] then Decimal(n)[0] else sign[0];
    BlanksSkipped(pre, blanks, rest);
    DigitsRead(front, n, post);
    assert b[|pre| + |blanks|] == rest[0];
  }

  lemma BlanksSkipped(pre: Bytes, blanks: Bytes, rest: Bytes)
    requires forall i :: 0 <= i < |blanks| ==> blanks[i] == 32 || 9 <= blanks[i] <= 13
    requires rest != [] && rest[0] != 32 && !(9 <= rest[0] <= 13)
    ensures SkipSpace(pre + blanks + rest, |pre|) == |pre| + |blanks|
  {
    var b, i := pre + blanks + rest, |pre| + |blanks|;
    assert b[i] == rest[0];
    forall k | |pre| <= k < i
      ensures b[k] == 32 || 9 <= b[k] <= 13
    {
      assert b[k] == blanks[k - |pre|];
    }
    SkipSpaceRun(b, |pre|, i);
  }

  lemma DigitsRead(front: Bytes, n: nat, post: Bytes)
    requires post == [] || !(48 <= post[0] <= 57)
    ensures Digits(front + Decimal(n) + post, |front|, 0) == (n, |front| + |Decimal(n)|)
  {
    hide Decimal, Digits;
    var b := front + Decimal(n) + post;
    DigitsOfDecimal(front, n, post);
    assert post != [] ==> b[|front| + |Decimal(n)|] == post[0];
    DigitsStop(b, |front| + |Decimal(n)|, n);
  }

  lemma DigitsStop(b: Bytes, i: nat, acc: nat)
    requires i < |b| ==> !(48 <= b[i] <= 57)
    ensures Digits(b, i, acc) == (acc, i)
  {
  }

  /** Where neither a blank nor a sign nor a digit is, zero is read and nothing is passed over. */
  lemma StrtoulElsewhere(b: Bytes, start: nat)
    requires start < |b| ==> b[start] !in {32, 43, 45} && !(9 <= b[start] <= 13) && !(48 <= b[start] <= 57)
    ensures Strtoul(b, start) == (0, start)
  {
  }

  lemma {:induction false} SkipSpaceForward(b: Bytes, i: nat)
    ensures SkipSpace(b, i) >= i
    decreases |b| - i
  {
    if i < |b| && IsSpace(b[i]) {
      SkipSpaceForward(b, i + 1);
    }
  }

  lemma {:induction false} DigitsForward(b: Bytes, i: nat, acc: nat)
    ensures Digits(b, i, acc).1 >= i
    ensures Digits(b, i, acc).1 > i <==> i < |b| && IsDigit(b[i])
    decreases |b| - i
  {
    if i < |b| && IsDigit(b[i]) {
      DigitsForward(b, i + 1, acc * 10 + (b[i] as nat - 48));
    }
  }

  /** Reading stops where it began, with zero, exactly when behind the spaces and at most one sign
      there is no digit. */
  lemma StrtoulOfNothingIff(b: Bytes, start: nat)
    ensures var i := SkipSpace(b, start);
            var j := if i < |b| && (b[i] == PLUS || b[i] == MINUS) then i + 1 else i;
            Strtoul(b, start).1 == start <==> j >= |b| || !IsDigit(b[j])
    ensures Strtoul(b, start).1 == start ==> Strtoul(b, start).0 == 0
  {
    SkipSpaceForward(b, start);
    var i := SkipSpace(b, start);
    DigitsForward(b, if i < |b| && (b[i] == PLUS || b[i] == MINUS) then i + 1 else i, 0);
  }

  /** What any two numbers in a command become, whatever follows the command in the buffer. */
  lemma ParseOfFormat(x: nat, y: nat, tail: Bytes)
    ensures IsCommand(FormatSeek(x, y) + tail)
    ensures ParseSeek(FormatSeek(x, y) + tail)
         == AesdDevice.SeekTo((if x > ULONG_MAX then ULONG_MAX else x) % TWO_32,
                              (if y > ULONG_MAX then ULONG_MAX else y) % TWO_32)
  {
    hide Strtoul, Decimal;
    var b := FormatSeek(x, y) + tail;
    var rest := [COMMA] + Decimal(y) + [NEWLINE] + tail;
    var pre := COMMAND + Decimal(x) + [COMMA];
    assert b == COMMAND + Decimal(x) + rest;
    assert b == pre + Decimal(y) + ([NEWLINE] + tail);
    StrtoulOfDecimal(COMMAND, x, rest);
    StrtoulOfDecimal(pre, y, [NEWLINE] + tail);
    assert COMMAND <= b;
  }

  /** A command carries its two numbers exactly when both fit 32 bits. */
  lemma SeekRoundTrip(x: nat, y: nat, tail: Bytes)
    ensures IsCommand(FormatSeek(x, y) + tail)
    ensures ParseSeek(FormatSeek(x, y) + tail).writeCmd == x && ParseSeek(FormatSeek(x, y) + tail).writeCmdOffset == y
            <==> x < TWO_32 && y < TWO_32
  {
    hide ParseSeek, FormatSeek, IsCommand;
    ParseOfFormat(x, y, tail);
  }
}
