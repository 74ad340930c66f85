/**
 * The Magic Packet both versions of `make_magic` build: a synchronisation
 * stream of six 0xFF bytes, the target MAC sixteen times, and (wol.py only)
 * the six bytes of a SecureOn password. `Frame` states this layout on
 * bytes; `HexEncoding` proves that the sources' route (concatenate hex
 * digit strings, then `bytes.fromhex`) lands on it.
 */
module MagicPacket {
  import opened Wrappers
  import opened Hex
  import opened MacSyntax

  /** How many times the target MAC is repeated after the synchronisation stream. */
  const Repetitions: nat := 16

  /**
   * The `ValueError`s `make_magic` raises, each carrying the rejected text
   * its message quotes.
   */
  datatype MagicError = InvalidMac(mac: string) | InvalidSecureOn(secureon: string)

  /** The byte values of the groups of a MAC text, left to right. */
  function TextBytes(t: MacText): (b: seq<byte>)
    requires Valid(t)
    ensures |b| == Delimited(t) + 1
  {
    match t
    case Final(p) => [PairValue(p.hi, p.lo)]
    case Grouped(p, _, r) => [PairValue(p.hi, p.lo)] + TextBytes(r)
  }

  /** The six bytes an accepted MAC (or SecureOn password) stands for. */
  function AddressBytes(s: string): (b: seq<byte>)
    requires IsMac(s)
    ensures |b| == 6
  {
    TextBytes(MatchMac(s).value)
  }

  /** Six 0xFF bytes, sixteen copies of `mac`, then `password`. */
  function Frame(mac: seq<byte>, password: seq<byte>): seq<byte>
  {
    Repeat([0xFF as byte], 6) + Repeat(mac, Repetitions) + password
  }

  /**
   * The layout of a frame for a six-byte MAC: 102 bytes plus the password;
   * bytes 0-5 are 0xFF, bytes 6-101 cycle through the MAC, the rest is the
   * password.
   */
  lemma FrameLayout(mac: seq<byte>, password: seq<byte>)
    requires |mac| == 6
    ensures |Frame(mac, password)| == 102 + |password|
    ensures forall i :: 0 <= i < 6 ==> Frame(mac, password)[i] == 0xFF
    ensures forall i :: 6 <= i < 102 ==> Frame(mac, password)[i] == mac[(i - 6) % 6]
    ensures Frame(mac, password)[102..] == password
  {
    var f := Frame(mac, password);
    forall i | 0 <= i < 6 ensures f[i] == 0xFF {
      RepeatAt([0xFF as byte], 6, i, 0);
    }
    forall i | 6 <= i < 102 ensures f[i] == mac[(i - 6) % 6] {
      RepeatAt(mac, Repetitions, (i - 6) / 6, (i - 6) % 6);
    }
  }

  /** Decoding the digits of a MAC text gives its group values. */
  lemma {:induction false} DigitsDecode(t: MacText, n: nat)
    requires WellFormedRun(t, n)
    ensures |Digits(t)| % 2 == 0 && IsHexString(Digits(t))
    ensures FromHex(Digits(t)) == TextBytes(t)
    decreases n
  {
    DigitsAreHex(t, n);
    match t
    case Final(p) =>
    case Grouped(p, _, r) =>
      DigitsDecode(r, n - 1);
      assert Digits(t)[2..] == Digits(r);
  }

  /** `bytes.fromhex(clean_mac(s))` is the address the accepted string `s` stands for. */
  lemma AddressBytesDecode(s: string)
    requires IsMac(s)
    ensures |CleanMac(s)| == 12 && IsHexString(CleanMac(s))
    ensures |CleanMac(s)| % 2 == 0 && FromHex(CleanMac(s)) == AddressBytes(s)
  {
    CleanMacOfMac(s);
    DigitsDecode(MatchMac(s).value, RepeatedGroups);
  }

  /** The twelve `f` digits of the synchronisation stream decode to six 0xFF bytes. */
  lemma SyncDecode()
    ensures |Repeat("f", 12)| == 12 && IsHexString(Repeat("f", 12))
    ensures FromHex(Repeat("f", 12)) == Repeat([0xFF as byte], 6)
  {
    assert Repeat("f", 12) == "ffffffffffff";
    assert Repeat([0xFF as byte], 6) == [0xFF, 0xFF, 0xFF, 0xFF, 0xFF, 0xFF];
  }

  /**
   * `bytes.fromhex('f'*12 + mac*16 + extra)` for an accepted `mac` is the
   * frame of the MAC's bytes and the decoded `extra`.
   */
  lemma HexEncoding(mac: string, extra: string)
    requires IsMac(mac)
    requires |extra| % 2 == 0 && IsHexString(extra)
    ensures var text := Repeat("f", 12) + Repeat(CleanMac(mac), Repetitions) + extra;
            |text| % 2 == 0 && IsHexString(text) &&
            FromHex(text) == Frame(AddressBytes(mac), FromHex(extra))
  {
    AddressBytesDecode(mac);
    SyncDecode();
    FromHexRepeat(CleanMac(mac), Repetitions);
    FromHexAppend(Repeat("f", 12), Repeat(CleanMac(mac), Repetitions));
    FromHexAppend(Repeat("f", 12) + Repeat(CleanMac(mac), Repetitions), extra);
  }
}
