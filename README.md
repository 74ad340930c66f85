# wol: the Wake-on-LAN magic packet, modelled in Dafny

`wol` wakes a machine by broadcasting a Magic Packet over UDP. The packet
layout is the one in AMD's "Magic Packet Technology" white paper: six `0xFF`
bytes, then the target MAC address sixteen times, then an optional six-byte
SecureOn password. The project models the part of the tool that builds that
packet, and the rule `main` follows to settle its options:

- `MAC_REGEX`, the pattern a MAC (and a SecureOn password) must match, and
  `clean_mac`, which strips it to its alphanumeric characters. Both
  `wol.py` and `wol/wol.py` define them identically, so they are modelled
  once (module `MacSyntax`).
- `make_magic` of `wol.py`, with SecureOn (module `WolScript`), and of
  `wol/wol.py`, which takes a `secureon` argument and ignores it (module
  `WolPackage`). Both are stated against one byte-level description of the
  packet (module `MagicPacket`). Python's `bytes.fromhex` and string
  repetition, which the sources use to build it, are modelled in `Hex`.
- The option precedence in `main` of `wol.py` (module `WolOptions`). A
  truthy command-line IP, port or password is kept. A falsy one is replaced
  from the alias section named by the positional argument, or from the
  DEFAULT section, or else by the built-in `255.255.255.255`, port `9` or no
  password. An alias whose section (and DEFAULT) has no `mac` stops with
  exit status 1. This is an imperative method that reassigns its locals
  under the same `if not ...` guards as the source.

The repository's tests expect a later version than the code:
tests/test_clean_mac.py:17-33 expects `clean_mac` to upper-case and to raise
`ValueError`, and tests/test_config_v2.py expects `MAC/SECUREON` tokens and
group configuration. The code modelled here does none of that. It lets the
delimiter differ from pair to pair, keeps letter case in `clean_mac`, and
reads an INI file with one section per alias. The model follows the code.

Proved properties include:

- the regex language, in both directions (`MatchMac`, `MatchMacComplete`, `MacLanguage`);
- `clean_mac` keeps exactly the alphanumeric characters, in order, and is idempotent;
- on an accepted MAC, `clean_mac` yields its twelve hexadecimal digits;
- the exact failure conditions of `make_magic`;
- the packet layout and lengths (102 or 108 bytes);
- an empty password is the same as none;
- formatting (delimiters, letter case) does not affect the packet;
- the test vectors of `tests/test_make_magic.py`;
- the `wol/wol.py` variant ignores `secureon` and agrees with `wol.py` without one;
- the full precedence rule of `main`, including exactly when it stops with an error.

## Model

| member | source | states |
|---|---|---|
| `Hex.FromHex` | wol.py:138 | `bytes.fromhex` on digit pairs gives one byte per pair |
| `Hex.FromHexAt` | wol.py:138-140 | byte i of the decoding is 16 times the value of digit 2i plus the value of digit 2i+1 |
| `Hex.FromHexAppend` | wol.py:138 | decoding a concatenation of whole digit pairs is the concatenation of the decodings |
| `Hex.FromHexRepeat` | wol.py:138 | `mac*16` stays a hex string, and decoding it repeats the decoded MAC sixteen times |
| `Hex.FromHexIgnoresCase` | wol.py:138 | decoding gives the same bytes for upper- and lower-case hex letters |
| `Hex.HexValueIgnoresCase` | wol.py:138 | a hex digit and its lower-case form have the same value |
| `Hex.HexValue` | wol.py:138 | a hex digit's value is below 16 |
| `Hex.Repeat` | wol.py:138 | `s * n` has n times the length of `s` |
| `Hex.RepeatAt` | wol.py:138 | element j of copy k of a repetition is element j of the original |
| `MacSyntax.ScanComplete` | wol/wol.py:8 | every well-formed text is matched and read back as itself |
| `MacSyntax.RenderEndsWithDigits` | wol.py:10 | the text of a run starts and ends with a hex digit, so a delimiter can never be mistaken for a digit |
| `MacSyntax.RenderLength` | wol.py:10 | a six-pair MAC is 12 to 17 characters long |
| `MacSyntax.Scan` | wol.py:10 | whatever the pattern reads is well formed (n+1 hex pairs, optional `-`/`:`/`.` after all but the last) and spells out exactly the input |
| `MacSyntax.MatchMac` | wol.py:125 | `MAC_REGEX.match`: an accepted string is six hex pairs with optional delimiters after the first five, possibly followed by one newline (`$` before a final `\n`) |
| `MacSyntax.MatchMacComplete` | wol.py:10 | every such text is accepted with or without a final newline; delimiters may differ from pair to pair |
| `MacSyntax.MacLanguage` | wol/wol.py:25 | `MAC_REGEX.match(mac)` is truthy exactly when `mac` is such a text, with or without one final newline |
| `MacSyntax.LengthOutOfRangeRejected` | wol.py:10 | a string shorter than 12 or longer than 18 characters is rejected |
| `MacSyntax.BadLastCharacterRejected` | wol/wol.py:8 | a string ending in anything but a hex digit or one newline is rejected |
| `MacSyntax.BadSeparatorRejected` | wol/wol.py:8 | a string whose third character is neither a hex digit nor `-`, `:`, `.` is rejected |
| `MacSyntax.CleanMac` | wol.py:151 | the result is no longer than the input and holds only alphanumeric characters |
| `MacSyntax.CleanMacAppend` | wol.py:143-151 | cleaning works piece by piece, so the kept characters stay in their original order |
| `MacSyntax.CleanMacCounts` | wol/wol.py:37-42 | each alphanumeric character is kept exactly as often as it occurs, in its original case; nothing else is kept |
| `MacSyntax.CleanMacKeepsAlnum` | wol/wol.py:42 | a string of alphanumeric characters only is returned unchanged |
| `MacSyntax.CleanMacIdempotent` | wol.py:151 | cleaning twice is the same as cleaning once |
| `MacSyntax.CleanMacOfRender` | wol.py:129 | cleaning a well-formed MAC text leaves exactly its hex digits |
| `MacSyntax.DigitsAreHex` | wol.py:129 | the digits of a run of n+1 pairs are 2(n+1) hex characters |
| `MacSyntax.CleanMacOfMac` | wol.py:125-129 | for an accepted string, `clean_mac` gives exactly twelve hex characters: the string's digits in order |
| `MagicPacket.TextBytes` | wol.py:138 | one byte per hex pair of a MAC text |
| `MagicPacket.AddressBytes` | wol.py:129 | an accepted MAC or password stands for six bytes |
| `MagicPacket.FrameLayout` | wol.py:138-140 | 102 bytes plus the password; bytes 0-5 are `0xFF`; bytes 6-101 cycle through the six MAC bytes; the rest is the password |
| `MagicPacket.DigitsDecode` | wol.py:138 | decoding a MAC's digits gives its pair values |
| `MagicPacket.AddressBytesDecode` | wol.py:129 | `bytes.fromhex(clean_mac(s))` is the address an accepted `s` stands for |
| `MagicPacket.SyncDecode` | wol.py:138 | `'f'*12` decodes to six `0xFF` bytes |
| `MagicPacket.HexEncoding` | wol.py:138-140 | `bytes.fromhex('f'*12 + mac*16 + extra)` is the Magic Packet frame of the MAC's bytes and the decoded `extra` |
| `WolScript.PasswordBytes` | wol.py:131-137 | six password bytes when a non-empty password is given, none otherwise |
| `WolScript.MakeMagic` | wol.py:119-140 | the packet for a valid MAC and password; otherwise `ValueError` for the MAC first, then for a non-empty invalid password |
| `WolScript.PacketShape` | wol.py:138-140 | 102 bytes without and 108 with a password; six `0xFF`; the MAC's bytes sixteen times; then the password's bytes |
| `WolScript.FailsExactlyOnInvalidInput` | wol.py:125-135 | no packet exactly when the MAC, or a non-empty password, is rejected by `MAC_REGEX` |
| `WolScript.EmptyPasswordIsNoPassword` | wol.py:131 | an empty password gives the same packet as `None` |
| `WolScript.FormattingIrrelevant` | wol.py:128-140 | two accepted MACs with the same digits up to case give the same packet whatever their delimiters |
| `WolScript.AllOnesExample` | tests/test_make_magic.py:8 | `make_magic('f'*12)` is 102 bytes of `0xFF` |
| `WolScript.PlainExample` | tests/test_make_magic.py:9 | `make_magic('ab'*6)` is six `0xFF` then `0xAB` ninety-six times |
| `WolScript.SecureOnExample` | tests/test_make_magic.py:10 | `make_magic('ab'*6, 'b'*12)` ends with six `0xBB` bytes after the repetitions |
| `WolScript.NoPasswordFrame` | wol.py:139-140 | without a password the packet is the synchronisation stream and the sixteen repetitions alone |
| `WolScript.UniformMac` | tests/test_make_magic.py:8-10 | six identical undelimited pairs are accepted and stand for six copies of that byte |
| `WolScript.UniformRun` | wol.py:10 | n+1 identical valid pairs without delimiters are well formed, spell the repeated digits and stand for the repeated byte |
| `WolScript.SingleDigitRepeat` | tests/test_make_magic.py:10 | `'b'*12` is `'bb'*6` |
| `WolPackage.MakeMagic` | wol/wol.py:19-34 | `ValueError` for a MAC the pattern rejects; otherwise the frame of its bytes with no password |
| `WolPackage.PacketShape` | wol/wol.py:31-34 | always 102 bytes: six `0xFF`, then the MAC's six bytes sixteen times |
| `WolPackage.SecureOnIgnored` | wol/wol.py:19 | the `secureon` argument makes no difference |
| `WolPackage.AgreesWithScript` | wol/wol.py:34 | the same result as `wol.py`'s `make_magic` with no password |
| `WolOptions.Tiers` | wol.py:58-86 | an alias consults its own section and then DEFAULT; anything else consults DEFAULT only |
| `WolOptions.IniConfig.Get` | wol.py:63-86 | `config.get`: nothing exactly when neither the section nor DEFAULT has the key; the section's own value wins over DEFAULT's |
| `WolOptions.FirstWith` | wol.py:71-86 | an option is found exactly when some consulted section has it, and its value is the one in the first section that has it |
| `WolOptions.GetIsFirstWith` | wol.py:72-86 | configparser's `get` on the alias (or DEFAULT) section is the first consulted section holding the key |
| `WolOptions.ParseInt` | wol.py:74 | the `int()` in `getint`: a result exactly for an optional sign followed by decimal digits; negative only after a `-` |
| `WolOptions.ParseNat` | wol.py:84 | a value exactly for a non-empty run of decimal digits |
| `WolOptions.ParseNatOfDecimal` | wol.py:84 | the decimal digits of any natural number read back as that number |
| `WolOptions.ParseIntOfSigned` | wol.py:74 | `int(str(n)) == n` for every integer `n`, so any port written in the file is read as written |
| `WolOptions.ResolveOptions` | wol.py:58-86 | the options are settled exactly when neither error occurs: an alias without `mac`, or a falsy CLI port with a non-integer port option. On success a truthy CLI ip/port/secureon is kept; a falsy one comes from the alias section, then DEFAULT, then `255.255.255.255`/`9`/`None`; the MAC is the alias's `mac`, or the argument itself |

## Left out

- `wake` (wol.py:102-116): UDP socket creation, the broadcast option and the send are network I/O.
- `argparse`, `print` and `quit` in `main` (wol.py:17-50, 88-99): command-line plumbing. The parsed `-i`, `-p`, `-s` values and the positional argument are parameters of `ResolveOptions`. The alias-without-`mac` exit with status 1 and a port option that makes `int()` raise are its error results.
- Reading the configuration file and the import-time `CONFIG_FILE` path (wol.py:14, 52-56): file I/O. The parsed file is the `IniConfig` value: DEFAULT's options and each other section's options. Option-name lower-casing and `%` interpolation are configparser's and are not modelled.
- `main` and `send_magic` of wol/wol.py (wol/wol.py:11-16): they only `pass`.
- `StructuredLog`, `parse_config_dict`, `merge_cli_and_config`, `GroupConfig`, `MacAddress`, `parse_mac` and `WOLConfig`: their implementations are not part of this model; only their tests exist.
- tests/test_clean_mac.py expects `clean_mac` to upper-case and to raise `ValueError`. The code does neither, and the model follows the code.
- `MacSyntax.CleanMac`: `str.isalnum` is modelled on ASCII only. Non-ASCII letters and digits, which Python also keeps, are not. Every string `MAC_REGEX` accepts is ASCII, so packets are unaffected.
- `MacSyntax.MatchMac`: arguments that are not strings (`None`, integers, `bytes`) make `re.match` raise `TypeError`; the model's inputs are strings.
- `Hex.FromHex`: `bytes.fromhex` also skips whitespace between pairs and raises on malformed input. It is modelled only on the even-length hex strings `make_magic` passes it, which are proved to be such.
- `WolOptions.ParseInt`: `int()` also allows surrounding whitespace, `_` between digits and non-ASCII digits. Only an optional sign followed by ASCII digits is modelled.
- What `main` prints after calling `wake`, and errors raised by the socket layer, are left out with `wake`.
