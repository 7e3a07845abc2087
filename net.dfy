/** `std::net::Ipv4Addr`: what `src/main.rs` uses of it is parsing from text
    (`from_str`) and its `octets()`; the dotted-decimal form is the
    reference the parser is described by. */
module Net {

  import opened Wrappers
  import opened Bits
  import opened Text

  type Octets = s: seq<u8> | |s| == 4 witness [0, 0, 0, 0]

  /** An IPv4 address as its four octets, the first the most significant. */
  datatype Ipv4Addr = Ipv4Addr(octets: Octets)

  /** The rule `Ipv4Addr::from_str` applies to each dot-separated piece: the
      canonical decimal form of a number at most 255, i.e. one to three
      digits and no leading zero on a piece of more than one digit. */
  predicate IsOctetText(s: string)
  {
    Canonical(s) && Value(s) <= 255
  }

  /** The octet texts are exactly the decimal forms of the bytes. */
  lemma OctetTextIsShow(s: string)
    ensures IsOctetText(s) <==> exists n: u8 :: s == Show(n)
  {
    if IsOctetText(s) {
      ShowValue(s);
      var n: u8 := Value(s);
      assert s == Show(n);
    }
  }

  /** The decimal forms of the four octets. */
  function Pieces(a: Ipv4Addr): seq<string>
  {
    [Show(a.octets[0]), Show(a.octets[1]), Show(a.octets[2]), Show(a.octets[3])]
  }

  /** The dotted-decimal form, `a.b.c.d`: the reference against which the
      parser's accepted texts are described (the program itself prints no
      address). */
  function Format(a: Ipv4Addr): string
  {
    Join(Pieces(a), '.')
  }

  /** `Ipv4Addr::from_str`: exactly four dot-separated pieces, each an octet
      in canonical decimal, and nothing else. It accepts exactly the
      dotted-decimal forms, and gives back the address each one denotes. */
  function ParseIpv4(s: string): (r: Option<Ipv4Addr>)
    ensures r.Some? ==> s == Format(r.value)
    ensures forall a: Ipv4Addr :: s == Format(a) ==> r == Some(a)
  {
    var parts := Split(s, '.');
    FormatSplitsAll();
    if |parts| == 4 && IsOctetText(parts[0]) && IsOctetText(parts[1])
       && IsOctetText(parts[2]) && IsOctetText(parts[3])
    then
      var a := Ipv4Addr([Value(parts[0]), Value(parts[1]), Value(parts[2]), Value(parts[3])]);
      PartsFormat(s, a);
      Some(a)
    else
      None
  }

  /** Text whose four pieces are octet texts is the form of their address. */
  lemma PartsFormat(s: string, a: Ipv4Addr)
    requires |Split(s, '.')| == 4
    requires forall i :: 0 <= i < 4 ==> IsOctetText(Split(s, '.')[i]) && a.octets[i] == Value(Split(s, '.')[i])
    ensures s == Format(a)
  {
    var parts := Split(s, '.');
    forall i | 0 <= i < 4
      ensures Pieces(a)[i] == parts[i]
    {
      ShowValue(parts[i]);
    }
    assert Pieces(a) == parts;
    JoinSplit(s, '.');
  }

  /** The form of an address splits back into its octets' decimal forms,
      each an octet text; the address is determined by them. */
  lemma FormatSplits(a: Ipv4Addr)
    ensures Split(Format(a), '.') == Pieces(a)
    ensures forall i :: 0 <= i < 4 ==> IsOctetText(Pieces(a)[i]) && Value(Pieces(a)[i]) == a.octets[i]
    ensures a == Ipv4Addr([a.octets[0], a.octets[1], a.octets[2], a.octets[3]])
  {
    var parts := Pieces(a);
    forall i | 0 <= i < 4
      ensures '.' !in parts[i]
    {
      DigitsLackChar(parts[i], '.');
    }
    SplitJoin(parts, '.');
  }

  lemma FormatSplitsAll()
    ensures forall a: Ipv4Addr :: Split(Format(a), '.') == Pieces(a)
    ensures forall a: Ipv4Addr :: forall i :: 0 <= i < 4 ==> IsOctetText(Pieces(a)[i]) && Value(Pieces(a)[i]) == a.octets[i]
    ensures forall a: Ipv4Addr :: a == Ipv4Addr([a.octets[0], a.octets[1], a.octets[2], a.octets[3]])
  {
    forall a: Ipv4Addr
      ensures Split(Format(a), '.') == Pieces(a)
      ensures forall i :: 0 <= i < 4 ==> IsOctetText(Pieces(a)[i]) && Value(Pieces(a)[i]) == a.octets[i]
      ensures a == Ipv4Addr([a.octets[0], a.octets[1], a.octets[2], a.octets[3]])
    {
      FormatSplits(a);
    }
  }

  /** A dotted-decimal form holds only digits and dots. */
  lemma FormatChars(a: Ipv4Addr, c: char)
    requires !IsDigit(c) && c != '.'
    ensures c !in Format(a)
  {
    FormatPieces(a);
    DigitsLackChar(Show(a.octets[0]), c);
    DigitsLackChar(Show(a.octets[1]), c);
    DigitsLackChar(Show(a.octets[2]), c);
    DigitsLackChar(Show(a.octets[3]), c);
  }

  lemma FormatPieces(a: Ipv4Addr)
    ensures Format(a) == Show(a.octets[0]) + "." + (Show(a.octets[1]) + "."
                         + (Show(a.octets[2]) + "." + Show(a.octets[3])))
  {
    JoinFour(Show(a.octets[0]), Show(a.octets[1]), Show(a.octets[2]), Show(a.octets[3]), '.');
  }

  lemma DigitsLackChar(s: string, c: char)
    requires AllDigits(s) && !IsDigit(c)
    ensures c !in s
  {
  }
}
