/** The numbers of a configuration file: the digits of a number in any of the three notations
    read as the number. */
module ConfigNumbers {
  import opened Bits
  import opened Common
  import opened ConfigParser
  import opened ConfigRoundTrip

  /** A digit as a character, in either case. */
  predicate Shows(ch: int, d: nat) {
    d < 16 && (ch == "0123456789abcdef"[d] as int || ch == "0123456789ABCDEF"[d] as int)
  }

  /** A text that shows these digits. */
  predicate Spells(text: seq<int>, ds: seq<nat>, base: nat) {
    |text| == |ds| && forall k | 0 <= k < |ds| :: ds[k] < base && Shows(text[k], ds[k])
  }

  /** A number with one more digit. */
  function More(acc: nat, base: nat, d: nat): nat {
    acc * base + d
  }

  /** The number with these digits, behind one that is given. */
  function Worth(ds: seq<nat>, base: nat, acc: nat): nat {
    if ds == [] then acc else Worth(ds[1..], base, More(acc, base, ds[0]))
  }

  /** The digits of a number. */
  function InBase(n: nat, base: nat): (ds: seq<nat>)
    requires base in {8, 10, 16}
    ensures ds != [] && forall k | 0 <= k < |ds| :: ds[k] < base
    ensures n > 0 ==> ds[0] > 0
  {
    Quotient(n, base);
    if n < base then [n] else InBase(n / base, base) + [n % base]
  }

  lemma {:induction false} Quotient(n: nat, base: nat)
    requires base in {8, 10, 16}
    ensures n / base * base + n % base == n && n % base < base && (n >= base ==> 0 < n / base < n)
  {
    if base == 8 {
      assert n / 8 * 8 + n % 8 == n;
    } else if base == 10 {
      assert n / 10 * 10 + n % 10 == n;
    } else {
      assert n / 16 * 16 + n % 16 == n;
    }
  }

  lemma {:induction false} WorthSnoc(ds: seq<nat>, d: nat, base: nat, acc: nat)
    ensures Worth(ds + [d], base, acc) == Worth(ds, base, acc) * base + d
  {
    if ds == [] {
      assert ds + [d] == [d] && [d][1..] == [];
    } else {
      assert (ds + [d])[1..] == ds[1..] + [d];
      WorthSnoc(ds[1..], d, base, More(acc, base, ds[0]));
    }
  }

  lemma {:induction false} WorthOfDigits(n: nat, base: nat)
    requires base in {8, 10, 16}
    ensures Worth(InBase(n, base), base, 0) == n
  {
    Quotient(n, base);
    if n < base {
      assert [n][1..] == [];
    } else {
      WorthOfDigits(n / base, base);
      WorthSnoc(InBase(n / base, base), n % base, base, 0);
    }
  }

  lemma {:induction false} ShownDigit(ch: int, d: nat)
    requires Shows(ch, d)
    ensures IsXDigit(ch) && DigitValue(ch) == d && ch != HASH && ToLower(ch) != 120
    ensures IsDigit(ch) <==> d < 10
    ensures ch == ZERO <==> d == 0
  {
  }

  lemma {:induction false} CongruentStep(x: nat, y: nat, base: nat, d: nat)
    requires x % U64 == y % U64
    ensures More(x, base, d) % U64 == More(y, base, d) % U64
  {
    var k, q, r := x / U64 - y / U64, (y * base + d) / U64, (y * base + d) % U64;
    assert x == y + U64 * k;
    MulDistribute(y, U64 * k, base);
    assert U64 * k * base == U64 * (k * base);
    DivUnique(x * base + d, U64, k * base + q, r);
  }

  /** Machine words: congruent numbers stay congruent behind more digits. */
  lemma {:induction false} WorthModulo(ds: seq<nat>, base: nat, x: nat, y: nat)
    requires x % U64 == y % U64
    ensures Worth(ds, base, x) % U64 == Worth(ds, base, y) % U64
  {
    hide More;
    if ds != [] {
      CongruentStep(x, y, base, ds[0]);
      WorthModulo(ds[1..], base, More(x, base, ds[0]), More(y, base, ds[0]));
    }
  }

  /** One digit read. */
  lemma {:induction false} DigitRead(ch: int, d: nat, base: nat, acc: nat, s: State, next: int, rest: seq<int>)
    requires Shows(ch, d) && d < base && s.stream == [next] + rest && next != HASH
    ensures ParseDigits(ch, base, acc, s) == ParseDigits(next, base, More(acc, base, d) % U64, s.(stream := rest))
  {
    hide DigitValue, IsXDigit, Shows, Read;
    ShownDigit(ch, d);
    ReadFirst(s, next, rest);
  }

  lemma {:induction false} NoDigit(ch: int, base: nat, acc: nat, s: State)
    requires Delimiter(ch)
    ensures ParseDigits(ch, base, acc, s) == Ok(acc, s.(stream := [ch] + s.stream))
    ensures ch != HASH && ToLower(ch) != 120
  {
  }

  lemma {:induction false} Heads(ch: int, tail: seq<int>, text: seq<int>, more: seq<int>)
    requires [ch] + tail == text + more
    ensures text == [] ==> more == [ch] + tail
    ensures text != [] ==> ch == text[0] && tail == text[1..] + more
  {
    var all := [ch] + tail;
    assert all[0] == ch && all[1..] == tail;
    if text == [] {
      assert text + more == more;
    } else {
      assert (text + more)[0] == text[0] && (text + more)[1..] == text[1..] + more;
    }
  }

  /** What comes behind digits is a digit or ends the value. */
  lemma {:induction false} NextCharacter(text: seq<int>, ds: seq<nat>, base: nat, more: seq<int>) returns (next: int, rest: seq<int>)
    requires Spells(text, ds, base) && more != [] && Delimiter(more[0])
    ensures text + more == [next] + rest && next != HASH && ToLower(next) != 120
  {
    next, rest := (text + more)[0], (text + more)[1..];
    if text != [] {
      ShownDigit(text[0], ds[0]);
    }
  }

  /** Reading digits from `ch` on, up to what ends the value. */
  lemma {:induction false} DigitsRead(text: seq<int>, ds: seq<nat>, base: nat, ch: int, acc: nat, s: State, more: seq<int>)
    requires Spells(text, ds, base) && acc < U64
    requires more != [] && Delimiter(more[0]) && [ch] + s.stream == text + more
    ensures ParseDigits(ch, base, acc, s) == Ok(Worth(ds, base, acc) % U64, s.(stream := more))
    decreases |ds|
  {
    hide ParseDigits, Shows, Delimiter, More;
    Heads(ch, s.stream, text, more);
    if ds == [] {
      NoDigit(ch, base, acc, s);
    } else {
      var next, rest := NextCharacter(text[1..], ds[1..], base, more);
      DigitRead(ch, ds[0], base, acc, s, next, rest);
      var n := More(acc, base, ds[0]);
      DigitsRead(text[1..], ds[1..], base, next, n % U64, s.(stream := rest), more);
      WorthModulo(ds[1..], base, n % U64, n);
    }
  }

  // ---- the three notations ----

  /** "0x" or "0X" and any hexadecimal digits. */
  lemma {:induction false} HexBack(text: seq<int>, ds: seq<nat>, x: int, s: State, more: seq<int>)
    requires Spells(text, ds, 16) && (x == 'x' as int || x == 'X' as int)
    requires s.stream == [x] + (text + more) && more != [] && Delimiter(more[0])
    ensures ParseInteger('0' as int, s) == Ok(Worth(ds, 16, 0) % 0x1_0000_0000_0000_0000, s.(stream := more))
  {
    hide ParseDigits, Spells, Delimiter;
    var next, rest := NextCharacter(text, ds, 16, more);
    ReadFirst(s, x, text + more);
    ReadFirst(s.(stream := text + more), next, rest);
    DigitsRead(text, ds, 16, next, 0, s.(stream := rest), more);
  }

  /** "0" and any octal digits. */
  lemma {:induction false} OctBack(text: seq<int>, ds: seq<nat>, s: State, more: seq<int>)
    requires Spells(text, ds, 8) && s.stream == text + more && more != [] && Delimiter(more[0])
    ensures ParseInteger('0' as int, s) == Ok(Worth(ds, 8, 0) % 0x1_0000_0000_0000_0000, s.(stream := more))
  {
    hide ParseDigits, Spells, Delimiter;
    var next, rest := NextCharacter(text, ds, 8, more);
    ReadFirst(s, next, rest);
    DigitsRead(text, ds, 8, next, 0, s.(stream := rest), more);
  }

  /** Decimal digits, the first of them not 0. */
  lemma {:induction false} DecBack(text: seq<int>, ds: seq<nat>, s: State, more: seq<int>)
    requires Spells(text, ds, 10) && ds != [] && ds[0] != 0 && s.stream == text[1..] + more && more != [] && Delimiter(more[0])
    ensures IsDigit(text[0]) && ParseInteger(text[0], s) == Ok(Worth(ds, 10, 0) % 0x1_0000_0000_0000_0000, s.(stream := more))
  {
    hide ParseDigits, Delimiter;
    ShownDigit(text[0], ds[0]);
    assert [text[0]] + s.stream == text + more;
    DigitsRead(text, ds, 10, text[0], 0, s, more);
  }

  /** Every 64-bit number reads as itself in each of them. */
  lemma {:induction false} HexNumber(n: nat, text: seq<int>, x: int, s: State, more: seq<int>)
    requires n < 0x1_0000_0000_0000_0000 && Spells(text, InBase(n, 16), 16) && (x == 'x' as int || x == 'X' as int)
    requires s.stream == [x] + (text + more) && more != [] && Delimiter(more[0])
    ensures ParseInteger('0' as int, s) == Ok(n, s.(stream := more))
  {
    hide ParseInteger, Spells, Delimiter;
    WorthOfDigits(n, 16);
    HexBack(text, InBase(n, 16), x, s, more);
  }

  lemma {:induction false} OctNumber(n: nat, text: seq<int>, s: State, more: seq<int>)
    requires n < 0x1_0000_0000_0000_0000 && Spells(text, InBase(n, 8), 8)
    requires s.stream == text + more && more != [] && Delimiter(more[0])
    ensures ParseInteger('0' as int, s) == Ok(n, s.(stream := more))
  {
    hide ParseInteger, Spells, Delimiter;
    WorthOfDigits(n, 8);
    OctBack(text, InBase(n, 8), s, more);
  }

  lemma {:induction false} DecNumber(n: nat, text: seq<int>, s: State, more: seq<int>)
    requires 0 < n < 0x1_0000_0000_0000_0000 && Spells(text, InBase(n, 10), 10)
    requires s.stream == text[1..] + more && more != [] && Delimiter(more[0])
    ensures IsDigit(text[0]) && ParseInteger(text[0], s) == Ok(n, s.(stream := more))
  {
    hide ParseInteger, Delimiter, Shows;
    WorthOfDigits(n, 10);
    DecBack(text, InBase(n, 10), s, more);
  }
}
