/**
 * `make_magic` of wol.py: validate the MAC and, when one is given, the
 * SecureOn password against `MAC_REGEX`, strip both with `clean_mac`, and
 * decode `'f'*12 + mac*16 [+ secureon]` with `bytes.fromhex`.
 */
module WolScript {
  import opened Wrappers
  import opened Hex
  import opened MacSyntax
  import opened MagicPacket

  /** Python's `if secureon:` for `None` or a string: present and non-empty. */
  predicate HasPassword(secureon: Option<string>) {
    secureon.Some? && secureon.value != ""
  }

  /** The bytes appended after the repetitions: the password's, or none. */
  function PasswordBytes(secureon: Option<string>): (b: seq<byte>)
    requires HasPassword(secureon) ==> IsMac(secureon.value)
    ensures |b| == if HasPassword(secureon) then 6 else 0
  {
    if HasPassword(secureon) then AddressBytes(secureon.value) else []
  }

  /**
   * The packet for `mac` and an optional SecureOn password, or the
   * `ValueError` raised: first for an invalid MAC, then for a non-empty
   * invalid password.
   */
  function MakeMagic(mac: string, secureon: Option<string>): (r: Result<seq<byte>, MagicError>)
    ensures !IsMac(mac) ==> r == Failure(InvalidMac(mac))
    ensures IsMac(mac) && HasPassword(secureon) && !IsMac(secureon.value) ==>
              r == Failure(InvalidSecureOn(secureon.value))
    ensures IsMac(mac) && (HasPassword(secureon) ==> IsMac(secureon.value)) ==>
              r == Success(Frame(AddressBytes(mac), PasswordBytes(secureon)))
  {
    if !IsMac(mac) then Failure(InvalidMac(mac))
    else
      var digits := CleanMac(mac);
      if HasPassword(secureon) then
        if !IsMac(secureon.value) then Failure(InvalidSecureOn(secureon.value))
        else
          var password := CleanMac(secureon.value);
          AddressBytesDecode(secureon.value);
          HexEncoding(mac, password);
          Success(FromHex(Repeat("f", 12) + Repeat(digits, Repetitions) + password))
      else
        HexEncoding(mac, []);
        assert Repeat("f", 12) + Repeat(digits, Repetitions) + [] == Repeat("f", 12) + Repeat(digits, Repetitions);
        Success(FromHex(Repeat("f", 12) + Repeat(digits, Repetitions)))
  }

  /**
   * A packet is 102 bytes without a password and 108 with one: six 0xFF
   * bytes, the MAC's six bytes sixteen times, then the password's six bytes.
   */
  lemma PacketShape(mac: string, secureon: Option<string>)
    requires MakeMagic(mac, secureon).Success?
    ensures var p := MakeMagic(mac, secureon).value;
            && |p| == (if HasPassword(secureon) then 108 else 102)
            && (forall i :: 0 <= i < 6 ==> p[i] == 0xFF)
            && (forall i :: 6 <= i < 102 ==> p[i] == AddressBytes(mac)[(i - 6) % 6])
            && p[102..] == PasswordBytes(secureon)
  {
    FrameLayout(AddressBytes(mac), PasswordBytes(secureon));
  }

  /** No packet is produced exactly when the MAC, or a non-empty password, is rejected. */
  lemma FailsExactlyOnInvalidInput(mac: string, secureon: Option<string>)
    ensures MakeMagic(mac, secureon).Failure? <==>
              !IsMac(mac) || (HasPassword(secureon) && !IsMac(secureon.value))
  {
  }

  /** `None` and the empty string both mean "no SecureOn password". */
  lemma EmptyPasswordIsNoPassword(mac: string)
    ensures MakeMagic(mac, Some("")) == MakeMagic(mac, None)
  {
  }

  /**
   * Two accepted MACs with the same digits up to letter case give the same
   * packet, however they are delimited.
   */
  lemma FormattingIrrelevant(a: string, b: string, secureon: Option<string>)
    requires IsMac(a) && IsMac(b)
    requires LowerAll(CleanMac(a)) == LowerAll(CleanMac(b))
    ensures MakeMagic(a, secureon) == MakeMagic(b, secureon)
  {
    AddressBytesDecode(a);
    AddressBytesDecode(b);
    FromHexIgnoresCase(CleanMac(a));
    FromHexIgnoresCase(CleanMac(b));
  }

  /**
   * The SecureOn case of the tests: `make_magic('ab' * 6, 'b' * 12)` is
   * `b'\xff' * 6 + b'\xab' * 6 * 16 + b'\xbb' * 6`.
   */
  lemma SecureOnExample()
    ensures MakeMagic(Repeat("ab", 6), Some(Repeat("b", 12))) ==
              Success(Repeat([0xFF as byte], 6) + Repeat(Repeat([0xAB as byte], 6), 16) + Repeat([0xBB as byte], 6))
  {
    var mac, password := Repeat("ab", 6), Repeat("b", 12);
    UniformMac('a', 'b');
    UniformMac('b', 'b');
    SingleDigitRepeat('b');
    assert PairValue('a', 'b') == 0xAB && PairValue('b', 'b') == 0xBB;
    assert HasPassword(Some(password));
  }

  /** A case of the tests: `make_magic('f' * 12)` is 102 bytes of 0xFF. */
  lemma AllOnesExample()
    ensures MakeMagic(Repeat("f", 12), None) ==
              Success(Repeat([0xFF as byte], 6) + Repeat(Repeat([0xFF as byte], 6), 16))
  {
    var mac := Repeat("f", 12);
    UniformMac('f', 'f');
    SingleDigitRepeat('f');
    assert PairValue('f', 'f') == 0xFF;
    NoPasswordFrame(mac);
  }

  /** A case of the tests: `make_magic('ab' * 6)` is `b'\xff' * 6 + b'\xab' * 6 * 16`. */
  lemma PlainExample()
    ensures MakeMagic(Repeat("ab", 6), None) ==
              Success(Repeat([0xFF as byte], 6) + Repeat(Repeat([0xAB as byte], 6), 16))
  {
    var mac := Repeat("ab", 6);
    UniformMac('a', 'b');
    assert PairValue('a', 'b') == 0xAB;
    NoPasswordFrame(mac);
  }

  /** Without a password the packet is the synchronisation stream and the repetitions alone. */
  lemma NoPasswordFrame(mac: string)
    requires IsMac(mac)
    ensures MakeMagic(mac, None) == Success(Repeat([0xFF as byte], 6) + Repeat(AddressBytes(mac), 16))
  {
    var f := Frame(AddressBytes(mac), []);
    assert !HasPassword(None) && PasswordBytes(None) == [];
    assert MakeMagic(mac, None) == Success(f);
    var g := Repeat([0xFF as byte], 6) + Repeat(AddressBytes(mac), 16);
    assert f == g + [];
    assert g + [] == g;
  }

  /** Twelve copies of one digit are six copies of the pair it forms with itself. */
  lemma SingleDigitRepeat(c: char)
    ensures Repeat([c], 12) == Repeat([c, c], 6)
  {
    var a, b := Repeat([c], 12), Repeat([c, c], 6);
    forall i | 0 <= i < 12 ensures a[i] == b[i] {
      RepeatAt([c], 12, i, 0);
      RepeatAt([c, c], 6, i / 2, i % 2);
    }
  }

  /** Six identical undelimited pairs are accepted and stand for six copies of that pair's byte. */
  lemma UniformMac(hi: char, lo: char)
    requires IsHexDigit(hi) && IsHexDigit(lo)
    ensures IsMac(Repeat([hi, lo], 6))
    ensures AddressBytes(Repeat([hi, lo], 6)) == Repeat([PairValue(hi, lo)], 6)
  {
    var p := Pair(hi, lo);
    UniformRun(p, RepeatedGroups);
    MatchMacComplete(Uniform(p, RepeatedGroups));
  }

  /** `n` + 1 copies of one group with no delimiters between them. */
  function Uniform(p: Pair, n: nat): MacText
  {
    if n == 0 then Final(p) else Grouped(p, None, Uniform(p, n - 1))
  }

  /** An undelimited run of one valid group is well formed, spelled as repeated digits, and stands for repeated bytes. */
  lemma {:induction false} UniformRun(p: Pair, n: nat)
    requires ValidPair(p)
    ensures WellFormedRun(Uniform(p, n), n)
    ensures Render(Uniform(p, n)) == Repeat([p.hi, p.lo], n + 1)
    ensures TextBytes(Uniform(p, n)) == Repeat([PairValue(p.hi, p.lo)], n + 1)
    decreases n
  {
    if n == 0 {
      assert [p.hi, p.lo] + [] == [p.hi, p.lo];
      assert [PairValue(p.hi, p.lo)] + [] == [PairValue(p.hi, p.lo)];
    } else {
      UniformRun(p, n - 1);
      assert DelimiterText(None) == [];
      assert [p.hi, p.lo] + [] == [p.hi, p.lo];
    }
  }
}
