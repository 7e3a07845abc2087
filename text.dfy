/** The text operations of Rust's standard library that `src/main.rs` relies
    on: `str::split` on one character, and the ASCII decimal digits read by
    the address and integer parsers and written by `Display`. */
module Text {

  import opened Wrappers
  import opened Bits

  /** `s.split(sep)`: the pieces of `s` between occurrences of `sep`, in
      order. There is always at least one piece; an empty `s` gives one empty
      piece and a separator at either end gives an empty piece there. */
  function Split(s: string, sep: char): (parts: seq<string>)
    ensures |parts| >= 1
    ensures forall i :: 0 <= i < |parts| ==> sep !in parts[i]
    decreases |s|
  {
    if |s| == 0 then [""]
    else
      var rest := Split(s[1..], sep);
      if s[0] == sep then [""] + rest
      else [[s[0]] + rest[0]] + rest[1..]
  }

  /** The pieces written back with `sep` between them. */
  function Join(parts: seq<string>, sep: char): string
    requires |parts| >= 1
    decreases |parts|
  {
    if |parts| == 1 then parts[0] else parts[0] + [sep] + Join(parts[1..], sep)
  }

  lemma JoinFour(p0: string, p1: string, p2: string, p3: string, sep: char)
    ensures Join([p0, p1, p2, p3], sep) == p0 + [sep] + (p1 + [sep] + (p2 + [sep] + p3))
  {
    var parts := [p0, p1, p2, p3];
    assert parts[1..] == [p1, p2, p3] && parts[1..][1..] == [p2, p3] && parts[1..][1..][1..] == [p3];
    assert Join([p2, p3], sep) == p2 + [sep] + p3;
    assert Join([p1, p2, p3], sep) == p1 + [sep] + (p2 + [sep] + p3);
  }

  /** Text without the separator is a single piece. */
  lemma SplitNone(s: string, sep: char)
    requires sep !in s
    ensures Split(s, sep) == [s]
  {
    SplitJoin([s], sep);
  }

  /** Splitting loses nothing: the pieces and the separators make up `s`. */
  lemma {:induction false} JoinSplit(s: string, sep: char)
    ensures Join(Split(s, sep), sep) == s
    decreases |s|
  {
    if |s| > 0 {
      JoinSplit(s[1..], sep);
      var rest := Split(s[1..], sep);
      if s[0] != sep {
        if |rest| > 1 {
          assert Join(rest, sep) == rest[0] + [sep] + Join(rest[1..], sep);
        }
        assert [s[0]] + s[1..] == s;
      } else {
        assert [s[0]] + s[1..] == s;
      }
    }
  }

  /** Splitting text that was joined from separator-free pieces gives the
      pieces back. */
  lemma {:induction false} SplitJoin(parts: seq<string>, sep: char)
    requires |parts| >= 1
    requires forall i :: 0 <= i < |parts| ==> sep !in parts[i]
    ensures Split(Join(parts, sep), sep) == parts
    decreases |parts|
  {
    if |parts| == 1 {
      SplitPlain(parts[0], "", sep);
      assert parts[0] + "" == parts[0];
    } else {
      var tail := Join(parts[1..], sep);
      SplitJoin(parts[1..], sep);
      SplitPlain(parts[0], [sep] + tail, sep);
      assert parts[0] + [sep] + tail == parts[0] + ([sep] + tail);
      assert ([sep] + tail)[1..] == tail;
      assert Split([sep] + tail, sep) == [""] + parts[1..];
      assert parts[0] + "" == parts[0];
      assert [parts[0]] + parts[1..] == parts;
    }
  }

  /** A separator-free prefix joins the first piece of what follows it. */
  lemma {:induction false} SplitPlain(p: string, t: string, sep: char)
    requires sep !in p
    ensures Split(p + t, sep) == [p + Split(t, sep)[0]] + Split(t, sep)[1..]
    decreases |p|
  {
    if |p| > 0 {
      SplitPlain(p[1..], t, sep);
      assert (p + t)[1..] == p[1..] + t;
      assert [p[0]] + (p[1..] + Split(t, sep)[0]) == p + Split(t, sep)[0];
    } else {
      var r := Split(t, sep);
      assert p + t == t && p + r[0] == r[0];
      assert [r[0]] + r[1..] == r;
    }
  }

  predicate IsDigit(c: char)
  {
    '0' <= c <= '9'
  }

  predicate AllDigits(s: string)
  {
    forall i :: 0 <= i < |s| ==> IsDigit(s[i])
  }

  function DigitValue(c: char): (d: nat)
    requires IsDigit(c)
    ensures d < 10
  {
    c as int - '0' as int
  }

  function DigitChar(d: nat): (c: char)
    requires d < 10
    ensures IsDigit(c) && DigitValue(c) == d
  {
    ('0' as int + d) as char
  }

  /** The number a string of decimal digits denotes, most significant digit
      first; leading zeros add nothing. */
  function Value(s: string): nat
    requires AllDigits(s)
    decreases |s|
  {
    if |s| == 0 then 0 else 10 * Value(s[..|s| - 1]) + DigitValue(s[|s| - 1])
  }

  /** The canonical decimal form: at least one digit and no leading zero
      unless the number is zero itself. */
  predicate Canonical(s: string)
  {
    |s| >= 1 && AllDigits(s) && (|s| > 1 ==> s[0] != '0')
  }

  /** The decimal form of `n`: the reference against which the parsers'
      accepted texts are described (the program itself prints no numbers). */
  function Show(n: nat): (s: string)
    ensures Canonical(s) && Value(s) == n
    decreases n
  {
    if n < 10 then [DigitChar(n)]
    else
      var s := Show(n / 10) + [DigitChar(n % 10)];
      assert s[..|s| - 1] == Show(n / 10);
      s
  }

  /** A canonical digit string is the rendering of its own value, so each
      number has exactly one canonical form. */
  lemma {:induction false} ShowValue(s: string)
    requires Canonical(s)
    ensures Show(Value(s)) == s
    decreases |s|
  {
    if |s| > 1 {
      var init := s[..|s| - 1];
      assert init[0] == s[0];
      ShowValue(init);
      LeadingDigitPositive(init);
      var d := DigitValue(s[|s| - 1]);
      assert Value(s) == 10 * Value(init) + d;
      assert Value(s) / 10 == Value(init) && Value(s) % 10 == d;
      assert init + [s[|s| - 1]] == s;
    }
  }

  lemma {:induction false} LeadingDigitPositive(s: string)
    requires Canonical(s) && s[0] != '0'
    ensures Value(s) > 0
    decreases |s|
  {
    if |s| > 1 {
      var init := s[..|s| - 1];
      assert init[0] == s[0];
      LeadingDigitPositive(init);
    }
  }

  /** The text with one leading `+`, if there is one, removed. */
  function Unsigned(s: string): string
  {
    if |s| > 0 && s[0] == '+' then s[1..] else s
  }

  /** `z` zero digits. */
  function Zeros(z: nat): (s: string)
    ensures |s| == z && forall i :: 0 <= i < z ==> s[i] == '0'
  {
    seq(z, _ => '0')
  }

  /** `s.parse::<u8>()`: an optional leading `+`, then at least one decimal
      digit with a value that fits in eight bits. Whatever it accepts is,
      after the sign, a run of zeros followed by the decimal form of the
      value. */
  function ParseU8(s: string): (r: Option<u8>)
    ensures r.Some? ==> |Show(r.value)| <= |Unsigned(s)|
    ensures r.Some? ==> Unsigned(s) == Zeros(|Unsigned(s)| - |Show(r.value)|) + Show(r.value)
  {
    var digits := Unsigned(s);
    if |digits| > 0 && AllDigits(digits) && Value(digits) < 0x100 then
      StripZeros(digits);
      Some(Value(digits))
    else None
  }

  /** A digit string is its value's decimal form behind a run of zeros. */
  lemma {:induction false} StripZeros(d: string)
    requires |d| > 0 && AllDigits(d)
    ensures |Show(Value(d))| <= |d|
    ensures d == Zeros(|d| - |Show(Value(d))|) + Show(Value(d))
    decreases |d|
  {
    if Canonical(d) {
      ShowValue(d);
    } else {
      var t := d[1..];
      assert d == "0" + t;
      LeadingZeroValue(t);
      StripZeros(t);
      var z := |t| - |Show(Value(t))|;
      assert "0" + Zeros(z) == Zeros(z + 1);
    }
  }

  lemma {:induction false} LeadingZeroValue(s: string)
    requires AllDigits(s)
    ensures AllDigits("0" + s) && Value("0" + s) == Value(s)
    decreases |s|
  {
    if |s| > 0 {
      var init := s[..|s| - 1];
      LeadingZeroValue(init);
      assert ("0" + s)[..|s|] == "0" + init;
    }
  }

  /** Zeros in front of a digit string add nothing to its value. */
  lemma {:induction false} ZerosValue(z: nat, t: string)
    requires AllDigits(t)
    ensures AllDigits(Zeros(z) + t) && Value(Zeros(z) + t) == Value(t)
    decreases z
  {
    if z == 0 {
      assert Zeros(z) + t == t;
    } else {
      ZerosValue(z - 1, t);
      LeadingZeroValue(Zeros(z - 1) + t);
      assert Zeros(z) + t == "0" + (Zeros(z - 1) + t);
    }
  }

  /** `parse::<u8>` yields `n` exactly on an optional `+`, any number of
      zeros, and the decimal form of `n`. */
  lemma ParseU8Exact(s: string, n: u8)
    ensures ParseU8(s) == Some(n)
            <==> |Show(n)| <= |Unsigned(s)|
                 && Unsigned(s) == Zeros(|Unsigned(s)| - |Show(n)|) + Show(n)
  {
    var d := Unsigned(s);
    if |Show(n)| <= |d| && d == Zeros(|d| - |Show(n)|) + Show(n) {
      ZerosValue(|d| - |Show(n)|, Show(n));
    }
  }

  /** Every `u8` reads back from its decimal form, with or without a `+`. */
  lemma ParseU8Show(n: u8)
    ensures ParseU8(Show(n)) == Some(n)
    ensures ParseU8("+" + Show(n)) == Some(n)
  {
    var t := Show(n);
    assert IsDigit(t[0]);
    assert Unsigned(t) == t;
    assert Unsigned("+" + t) == t by {
      assert ("+" + t)[1..] == t;
    }
  }

  /** Text that `parse::<u8>` accepts holds only digits and perhaps a `+`, so
      no other separator. */
  lemma ParseU8Chars(s: string, c: char)
    requires ParseU8(s).Some? && !IsDigit(c) && c != '+'
    ensures c !in s
  {
  }
}
