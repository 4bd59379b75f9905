/** The size line of a chunk: hexadecimal digits up to the first ';', blanks ignored, at most SIZE_MAX. */
module ChunkSize {
  import opened Bytes

  const SIZE_MAX: nat := 0xFFFF_FFFF_FFFF_FFFF

  predicate IsHex(c: byte) {
    48 <= c <= 57 || 97 <= c <= 102 || 65 <= c <= 70
  }

  function HexDigit(c: byte): (d: nat)
    requires IsHex(c)
    ensures d < 16
  {
    if c <= 57 then c as int - 48 else if c <= 70 then c as int - 55 else c as int - 87
  }

  predicate AllHex(s: ByteString) {
    forall c :: c in s ==> IsHex(c)
  }

  function HexValue(s: ByteString): nat
    requires AllHex(s)
  {
    if s == [] then 0
    else
      assert IsHex(Last(s)) && AllHex(Init(s)) by {
        assert forall c :: c in Init(s) ==> c in s;
      }
      HexValue(Init(s)) * 16 + HexDigit(Last(s))
  }

  function NonBlanks(s: ByteString): ByteString {
    if s == [] then []
    else if Last(s) == SPACE || Last(s) == TAB then NonBlanks(Init(s))
    else NonBlanks(Init(s)) + [Last(s)]
  }

  /** The characters of a size line that must spell the size. */
  function Digits(line: ByteString): ByteString {
    NonBlanks(line[..IndexOf(line, SEMICOLON)])
  }

  /** What a size line means, on mathematical integers. */
  function SizeOf(line: ByteString): Option<nat> {
    var digits := Digits(line);
    if digits != [] && AllHex(digits) && HexValue(digits) <= SIZE_MAX then Some(HexValue(digits)) else None
  }

  lemma {:induction false} NonBlanksPrefix(s: ByteString, t: ByteString)
    ensures NonBlanks(s) <= NonBlanks(s + t)
  {
    if t == [] {
      assert s + t == s;
    } else {
      NonBlanksPrefix(s, Init(t));
      assert Init(s + t) == s + Init(t) && Last(s + t) == Last(t);
    }
  }

  lemma {:induction false} HexValueGrows(s: ByteString, t: ByteString)
    requires AllHex(s) && AllHex(t) && s <= t
    ensures HexValue(s) <= HexValue(t)
    decreases |t|
  {
    if |s| < |t| {
      assert AllHex(Init(t)) by {
        assert forall c :: c in Init(t) ==> c in t;
      }
      HexValueGrows(s, Init(t));
    } else {
      assert s == t;
    }
  }

  /** A bad or overflowing beginning spoils the whole line. */
  lemma PrefixDecides(line: ByteString, i: nat)
    requires i <= IndexOf(line, SEMICOLON)
    requires var seen := NonBlanks(line[..i]); !AllHex(seen) || HexValue(seen) > SIZE_MAX
    ensures SizeOf(line) == None
  {
    var n := IndexOf(line, SEMICOLON);
    assert line[..n] == line[..i] + line[i..n];
    NonBlanksPrefix(line[..i], line[i..n]);
    var seen, digits := NonBlanks(line[..i]), Digits(line);
    if AllHex(digits) {
      assert forall c :: c in seen ==> c in digits;
      HexValueGrows(seen, digits);
    }
  }

  /**
   The accumulating loop, whose only guard is the overflow test before each multiplication: it finds a
   size exactly when the line spells one that fits, and never lets the accumulator wrap.
   */
  method ParseChunkSize(line: ByteString) returns (size: Option<nat>)
    ensures size == SizeOf(line)
  {
    var value: nat, hasDigit := 0, false;
    var i := 0;
    while i < |line|
      invariant i <= IndexOf(line, SEMICOLON)
      invariant AllHex(NonBlanks(line[..i]))
      invariant value == HexValue(NonBlanks(line[..i])) <= SIZE_MAX
      invariant hasDigit == (NonBlanks(line[..i]) != [])
    {
      var c := line[i];
      if c == SEMICOLON {
        break;
      }
      assert i < IndexOf(line, SEMICOLON);
      ghost var seen := NonBlanks(line[..i]);
      InitLast(line[..i], c);
      assert line[..i + 1] == line[..i] + [c];
      i := i + 1;
      if c == SPACE || c == TAB {
        continue;
      }
      InitLast(seen, c);
      assert NonBlanks(line[..i]) == seen + [c];
      if !IsHex(c) {
        assert c in seen + [c];
        PrefixDecides(line, i);
        return None;
      }
      var digit := HexDigit(c);
      assert HexValue(seen + [c]) == value * 16 + digit;
      OverflowTest(value, digit);
      if value > (SIZE_MAX - digit) / 16 {
        PrefixDecides(line, i);
        return None;
      }
      value := value * 16 + digit;
      hasDigit := true;
    }
    assert i == IndexOf(line, SEMICOLON);
    size := if hasDigit then Some(value) else None;
  }

  lemma OverflowTest(value: nat, digit: nat)
    requires digit < 16
    ensures value > (SIZE_MAX - digit) / 16 <==> value * 16 + digit > SIZE_MAX
  {
  }

  // ---------- printing ----------

  function HexChar(d: nat): byte
    requires d < 16
  {
    Text("0123456789abcdef")[d]
  }

  lemma HexCodes(d: nat)
    requires d < 16
    ensures HexChar(d) as int == if d < 10 then 48 + d else 87 + d
  {
    assert Text("0123456789abcdef") == [48, 49, 50, 51, 52, 53, 54, 55, 56, 57, 97, 98, 99, 100, 101, 102];
  }

  function HexPrint(v: nat): ByteString {
    if v < 16 then [HexChar(v)] else HexPrint(v / 16) + [HexChar(v % 16)]
  }

  lemma {:induction false} HexPrintValue(v: nat)
    ensures AllHex(HexPrint(v)) && HexValue(HexPrint(v)) == v && HexPrint(v) != []
    ensures NonBlanks(HexPrint(v)) == HexPrint(v)
  {
    if v < 16 {
      HexCodes(v);
      assert HexPrint(v) == [] + [HexChar(v)];
      InitLast([], HexChar(v));
    } else {
      HexPrintValue(v / 16);
      HexCodes(v % 16);
      InitLast(HexPrint(v / 16), HexChar(v % 16));
    }
  }

  lemma HexPrintSteps(v: nat, d: nat)
    requires d < 16
    ensures v > 0 ==> HexPrint(16 * v + d) == HexPrint(v) + [HexChar(d)]
    ensures HexPrint(d) == [HexChar(d)]
  {
    hide HexChar;
    assert (16 * v + d) / 16 == v && (16 * v + d) % 16 == d;
  }

  lemma HexValueSnoc(s: ByteString, c: byte)
    requires AllHex(s) && IsHex(c)
    ensures AllHex(s + [c]) && HexValue(s + [c]) == 16 * HexValue(s) + HexDigit(c)
  {
    hide HexDigit, IsHex;
    InitLast(s, c);
  }

  lemma {:induction false} HexPrintLength(v: nat, digits: nat)
    requires digits > 0 && v < Power16(digits)
    ensures |HexPrint(v)| <= digits
  {
    if v >= 16 {
      HexPrintLength(v / 16, digits - 1);
    }
  }

  function Power16(n: nat): nat {
    if n == 0 then 1 else 16 * Power16(n - 1)
  }

  /** Printing any size that fits and parsing it back gives that size, in at most 16 digits. */
  lemma PrintParseSize(v: nat)
    requires v <= SIZE_MAX
    ensures SizeOf(HexPrint(v)) == Some(v)
    ensures |HexPrint(v)| <= 16
  {
    var text := HexPrint(v);
    HexPrintValue(v);
    var n := IndexOf(text, SEMICOLON);
    assert SEMICOLON !in text;
    assert text[..|text|] == text;
    assert Power16(4) == 0x1_0000 && Power16(8) == 0x1_0000_0000;
    assert Power16(12) == 0x1_0000_0000_0000 && Power16(16) == SIZE_MAX + 1;
    HexPrintLength(v, 16);
  }

  // ---------- what a size line is, in characters ----------

  /** The same letters, capitals allowed. */
  predicate SameLetters(u: ByteString, lower: ByteString) {
    |u| == |lower| && forall i :: 0 <= i < |u| ==> u[i] == lower[i] || (65 <= u[i] <= 70 && u[i] + 32 == lower[i])
  }

  /** A hexadecimal numeral of v: zeros in front, and capitals where one likes. */
  ghost predicate Spells(s: ByteString, v: nat) {
    exists n: nat {:trigger Zeros(n)} :: n <= |s| && s[..n] == Zeros(n) && SameLetters(s[n..], HexPrint(v))
  }

  lemma LetterValue(c: byte, d: nat)
    requires d < 16
    ensures SameLetters([c], [HexChar(d)]) <==> IsHex(c) && HexDigit(c) == d
  {
    HexCodes(d);
    assert [c][0] == c && [HexChar(d)][0] == HexChar(d);
  }

  lemma SameLettersSnoc(u: ByteString, lower: ByteString, c: byte, d: byte)
    ensures SameLetters(u + [c], lower + [d]) <==> |u| == |lower| && SameLetters(u, lower) && SameLetters([c], [d])
  {
    var s, t := u + [c], lower + [d];
    if |u| == |lower| {
      assert forall i :: 0 <= i < |u| ==> s[i] == u[i] && t[i] == lower[i];
      assert s[|u|] == [c][0] && t[|u|] == [d][0];
    }
  }

  lemma {:induction false} ZerosValue(n: nat)
    ensures AllHex(Zeros(n)) && HexValue(Zeros(n)) == 0
  {
    if n > 0 {
      ZerosValue(n - 1);
      assert Init(Zeros(n)) == Zeros(n - 1);
    }
  }

  lemma {:induction false} SpelledValue(zeros: nat, u: ByteString, v: nat)
    requires SameLetters(u, HexPrint(v))
    ensures AllHex(Zeros(zeros) + u) && HexValue(Zeros(zeros) + u) == v && u != []
    decreases v
  {
    hide SameLetters, HexDigit, HexChar, HexPrint, HexValue, IsHex;
    var digits := HexPrint(v);
    HexPrintValue(v);
    LettersLength(u, digits);
    var c := Last(u);
    HexPrintSteps(v / 16, v % 16);
    assert v == 16 * (v / 16) + v % 16;
    var before := if v < 16 then [] else HexPrint(v / 16);
    assert digits == before + [HexChar(v % 16)] && u == Init(u) + [c];
    SameLettersSnoc(Init(u), before, c, HexChar(v % 16));
    LetterValue(c, v % 16);
    if v < 16 {
      ZerosValue(zeros);
      assert Zeros(zeros) + Init(u) == Zeros(zeros);
    } else {
      SpelledValue(zeros, Init(u), v / 16);
    }
    HexValueSnoc(Zeros(zeros) + Init(u), c);
    assert Zeros(zeros) + u == (Zeros(zeros) + Init(u)) + [c];
  }

  lemma LettersLength(u: ByteString, lower: ByteString)
    requires SameLetters(u, lower)
    ensures |u| == |lower|
  {
  }

  lemma {:induction false} ValueSpells(s: ByteString) returns (n: nat)
    requires s != [] && AllHex(s)
    ensures n <= |s| && s[..n] == Zeros(n) && SameLetters(s[n..], HexPrint(HexValue(s)))
  {
    hide SameLetters, HexDigit, IsHex, HexChar, HexPrint, HexValue;
    var before, c := Init(s), Last(s);
    assert c in s && forall x :: x in before ==> x in s;
    var d := HexDigit(c);
    LetterValue(c, d);
    assert s == before + [c];
    HexValueSnoc(before, c);
    HexPrintSteps(HexValue(before), d);
    n := 0;
    if before == [] {
      NoValue();
      assert s[..0] == Zeros(0) && s[0..] == [c];
    } else {
      n := ValueSpells(before);
      n := SpellsNext(before, n, HexValue(before), c, d);
    }
  }

  lemma SpellsNext(before: ByteString, n: nat, v: nat, c: byte, d: nat) returns (m: nat)
    requires n <= |before| && before[..n] == Zeros(n) && SameLetters(before[n..], HexPrint(v))
    requires d < 16 && SameLetters([c], [HexChar(d)])
    ensures m <= |before| + 1 && (before + [c])[..m] == Zeros(m)
    ensures SameLetters((before + [c])[m..], HexPrint(16 * v + d))
  {
    hide SameLetters, HexChar, HexPrint;
    var s, u := before + [c], before[n..];
    LettersLength(u, HexPrint(v));
    HexPrintSteps(v, d);
    if v == 0 {
      m := n + 1;
      ZeroLetter(u);
      assert before == before[..n] + u && before == Zeros(m);
      assert s[..m] == before && s[m..] == [c];
    } else {
      m := n;
      SameLettersSnoc(u, HexPrint(v), c, HexChar(d));
      assert s[m..] == u + [c] && s[..m] == before[..n];
    }
  }

  lemma NoValue()
    ensures HexValue([]) == 0
  {
  }

  lemma ZeroLetter(u: ByteString)
    requires SameLetters(u, HexPrint(0))
    ensures u == [48]
  {
    HexCodes(0);
  }

  /** Blanks are dropped, whatever stands around them, and nothing else. */
  lemma {:induction false} NonBlanksExact(a: ByteString, b: ByteString, c: byte)
    ensures NonBlanks(a + b) == NonBlanks(a) + NonBlanks(b)
    ensures NonBlanks([c]) == if c == 32 || c == 9 then [] else [c]
  {
    assert [c] == [] + [c];
    if b == [] {
      assert a + b == a;
    } else {
      NonBlanksExact(a, Init(b), c);
      assert Init(a + b) == a + Init(b) && Last(a + b) == Last(b);
    }
  }

  /** The part of a size line that counts ends at the first ';', if there is one. */
  lemma ExtensionIgnored(size: ByteString, extension: ByteString)
    requires 59 !in size
    ensures Digits(size) == NonBlanks(size) && Digits(size + Text(";") + extension) == NonBlanks(size)
  {
    hide NonBlanks;
    var line := size + Text(";") + extension;
    assert Text(";") == [SEMICOLON];
    assert line[..|size|] == size && size[..|size|] == size;
    NotBefore(size, SEMICOLON, |size|);
    FirstIndex(line, SEMICOLON, |size|);
  }

  /**
   A size line means v exactly if v fits and the non-blank characters up to the first ';' are a hexadecimal
   numeral of v, in letters of either case and with zeros in front or not.
   */
  lemma SizeExact(line: ByteString, v: nat)
    ensures SizeOf(line) == Some(v) <==> v <= SIZE_MAX && Spells(Digits(line), v)
  {
    hide Digits, SameLetters, HexPrint, HexValue, HexDigit, Zeros;
    var digits := Digits(line);
    if SizeOf(line) == Some(v) {
      var n := ValueSpells(digits);
      assert Zeros(n) == digits[..n];
    }
    if v <= SIZE_MAX && Spells(digits, v) {
      var n: nat :| n <= |digits| && digits[..n] == Zeros(n) && SameLetters(digits[n..], HexPrint(v));
      SpelledValue(n, digits[n..], v);
      assert digits == Zeros(n) + digits[n..];
    }
  }

  /** "1A", "1a" and "0 1 a ; x" are all 26. */
  lemma SizeExample()
    ensures SizeOf(Text("1A")) == SizeOf(Text("1a")) == SizeOf(Text("0 1 a ; x")) == Some(26)
  {
    hide SizeOf, Digits, NonBlanks, HexPrint, Spells;
    assert Text("1A") == [49, 65] && Text("1a") == [49, 97];
    PairIsTwentySix(65);
    PairIsTwentySix(97);
    SpacedIsTwentySix();
  }

  lemma PairIsTwentySix(a: byte)
    requires a == 65 || a == 97
    ensures SizeOf([49, a]) == Some(26)
  {
    hide SizeOf, Digits, NonBlanks, HexPrint, Spells;
    ExtensionIgnored([49, a], []);
    NonBlanksPair(49, a);
    assert [49] + [a] == [49, a];
    SpellsTwentySix([49, a], 0);
    SizeExact([49, a], 26);
  }

  lemma SpacedIsTwentySix()
    ensures SizeOf(Text("0 1 a ; x")) == Some(26)
  {
    hide SizeOf, Digits, NonBlanks, HexPrint, Spells;
    var spaced: ByteString := [48, 32, 49, 32, 97, 32];
    assert Text("0 1 a ; x") == spaced + Text(";") + [32, 120];
    ExtensionIgnored(spaced, [32, 120]);
    NonBlanksPair(48, 32);
    NonBlanksPair(49, 32);
    NonBlanksPair(97, 32);
    assert spaced == ([48, 32] + [49, 32]) + [97, 32];
    NonBlanksExact([48, 32], [49, 32], 0);
    NonBlanksExact([48, 32] + [49, 32], [97, 32], 0);
    assert NonBlanks(spaced) == [48, 49, 97];
    SpellsTwentySix([48, 49, 97], 1);
    SizeExact(Text("0 1 a ; x"), 26);
  }

  lemma PrintTwentySix()
    ensures HexPrint(26) == [49, 97]
  {
    HexCodes(1);
    HexCodes(10);
  }

  lemma NonBlanksPair(a: byte, b: byte)
    ensures NonBlanks([a, b]) == (if a == 32 || a == 9 then [] else [a]) + if b == 32 || b == 9 then [] else [b]
  {
    NonBlanksExact([a], [b], a);
    NonBlanksExact([], [], b);
    assert [a] + [b] == [a, b];
  }

  lemma SpellsTwentySix(s: ByteString, n: nat)
    requires n <= |s| && s[..n] == Zeros(n) && (s[n..] == [49, 65] || s[n..] == [49, 97])
    ensures Spells(s, 26)
  {
    PrintTwentySix();
    assert Zeros(n) == s[..n];
  }
}
