/**
 * `make_magic` of wol/wol.py: the same validation and the same packet as
 * wol.py without SecureOn support. It accepts a `secureon` argument and
 * never reads it.
 */
module WolPackage {
  import opened Wrappers
  import opened Hex
  import opened MacSyntax
  import opened MagicPacket
  import WolScript

  /** The 102-byte packet for `mac`, or the `ValueError` for a MAC the pattern rejects. */
  function MakeMagic(mac: string, secureon: Option<string>): (r: Result<seq<byte>, MagicError>)
    ensures !IsMac(mac) ==> r == Failure(InvalidMac(mac))
    ensures IsMac(mac) ==> r == Success(Frame(AddressBytes(mac), []))
  {
    if !IsMac(mac) then Failure(InvalidMac(mac))
    else
      var digits := CleanMac(mac);
      HexEncoding(mac, []);
      assert Repeat("f", 12) + Repeat(digits, Repetitions) + [] == Repeat("f", 12) + Repeat(digits, Repetitions);
      Success(FromHex(Repeat("f", 12) + Repeat(digits, Repetitions)))
  }

  /** Every packet is 102 bytes: six 0xFF bytes, then the MAC's six bytes sixteen times. */
  lemma PacketShape(mac: string, secureon: Option<string>)
    requires MakeMagic(mac, secureon).Success?
    ensures var p := MakeMagic(mac, secureon).value;
            && |p| == 102
            && (forall i :: 0 <= i < 6 ==> p[i] == 0xFF)
            && (forall i :: 6 <= i < 102 ==> p[i] == AddressBytes(mac)[(i - 6) % 6])
  {
    FrameLayout(AddressBytes(mac), []);
  }

  /** The `secureon` argument makes no difference. */
  lemma SecureOnIgnored(mac: string, s1: Option<string>, s2: Option<string>)
    ensures MakeMagic(mac, s1) == MakeMagic(mac, s2)
  {
  }

  /** This version builds exactly what wol.py builds when no password is given. */
  lemma AgreesWithScript(mac: string, secureon: Option<string>)
    ensures MakeMagic(mac, secureon) == WolScript.MakeMagic(mac, None)
  {
  }
}
