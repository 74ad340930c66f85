/**
 * How `main` in wol.py settles the MAC, IP, port and SecureOn password it
 * sends with. A command-line value is kept when it is truthy. Otherwise it
 * comes from the configuration file: from the alias section when the
 * positional argument names one, else from the DEFAULT section. Failing
 * both, the built-in 255.255.255.255, port 9 and no password are used.
 * configparser is modelled by what `main` asks of it: a section's own
 * options, falling through to DEFAULT's.
 */
module WolOptions {
  import opened Wrappers

  const DefaultIp: string := "255.255.255.255"
  const DefaultPort: int := 9
  /** The name configparser gives the section every other section falls back to. */
  const DefaultSection: string := "DEFAULT"

  /** The configuration file as configparser holds it after reading: DEFAULT's options, and every other section's. */
  datatype IniConfig = IniConfig(defaults: map<string, string>, sections: map<string, map<string, string>>)
  {
    /** `name in config.sections()`; DEFAULT is never listed there. */
    predicate HasSection(name: string) {
      name in sections && name != DefaultSection
    }

    /** `config.get(section, key)`: the section's own option, else DEFAULT's, else nothing. */
    function Get(section: string, key: string): (r: Option<string>)
      requires section == DefaultSection || HasSection(section)
      ensures r.None? <==> key !in defaults && (section == DefaultSection || key !in sections[section])
      ensures section != DefaultSection && key in sections[section] ==> r == Some(sections[section][key])
      ensures r.Some? && (section == DefaultSection || key !in sections[section]) ==> r.value == defaults[key]
    {
      if section != DefaultSection && key in sections[section] then Some(sections[section][key])
      else if key in defaults then Some(defaults[key])
      else None
    }
  }

  /** The option maps consulted for a positional argument, highest priority first. */
  function Tiers(config: IniConfig, token: string): (tiers: seq<map<string, string>>)
    ensures |tiers| == if config.HasSection(token) then 2 else 1
  {
    if config.HasSection(token) then [config.sections[token], config.defaults] else [config.defaults]
  }

  /** The value of `key` in the first map that has it. */
  function FirstWith(tiers: seq<map<string, string>>, key: string): (r: Option<string>)
    ensures r.Some? <==> exists i :: 0 <= i < |tiers| && key in tiers[i]
    ensures r.Some? ==> exists i :: 0 <= i < |tiers| && key in tiers[i] && r.value == tiers[i][key] &&
                                    forall j :: 0 <= j < i ==> key !in tiers[j]
  {
    if tiers == [] then None
    else if key in tiers[0] then Some(tiers[0][key])
    else
      var rest := FirstWith(tiers[1..], key);
      assert forall i :: 1 <= i < |tiers| ==> tiers[i] == tiers[1..][i - 1];
      assert rest.Some? ==> exists i :: 0 <= i < |tiers| && key in tiers[i] && rest.value == tiers[i][key] &&
                                        forall j :: 0 <= j < i ==> key !in tiers[j] by {
        if rest.Some? {
          var k :| 0 <= k < |tiers[1..]| && key in tiers[1..][k] && rest.value == tiers[1..][k][key] &&
                   forall j :: 0 <= j < k ==> key !in tiers[1..][j];
          assert forall j :: 0 <= j < k + 1 ==> key !in tiers[j] by {
            forall j | 0 <= j < k + 1 ensures key !in tiers[j] {
              if j > 0 {
                assert tiers[j] == tiers[1..][j - 1];
              }
            }
          }
        }
      }
      rest
  }

  /** A string option given on the command line counts only when it is not empty. */
  predicate IsSetText(value: Option<string>) {
    value.Some? && value.value != ""
  }

  /** A port given on the command line counts only when it is not 0. */
  predicate IsSetPort(value: Option<int>) {
    value.Some? && value.value != 0
  }

  predicate IsDigit(c: char) {
    '0' <= c <= '9'
  }

  /** One or more ASCII decimal digits. */
  predicate IsDigits(text: string) {
    |text| > 0 && forall i :: 0 <= i < |text| ==> IsDigit(text[i])
  }

  /** An optional `-` or `+` followed by ASCII decimal digits. */
  predicate IsIntText(text: string) {
    IsDigits(text) || (|text| > 0 && (text[0] == '-' || text[0] == '+') && IsDigits(text[1..]))
  }

  /**
   * `int()` on an option's text as `config.getint` applies it: an optional
   * sign and ASCII decimal digits; anything else is rejected.
   */
  function ParseInt(text: string): (r: Option<int>)
    ensures r.Some? <==> IsIntText(text)
    ensures r.Some? && text[0] == '-' ==> r.value <= 0
    ensures r.Some? && text[0] != '-' ==> r.value >= 0
  {
    if |text| > 0 && (text[0] == '-' || text[0] == '+') then
      match ParseNat(text[1..])
      case None => None
      case Some(n) => var v: int := if text[0] == '-' then -(n as int) else n; Some(v)
    else
      match ParseNat(text)
      case None => None
      case Some(n) => var v: int := n; Some(v)
  }

  /** The value of a string of decimal digits, most significant first. */
  function ParseNat(digits: string): (r: Option<nat>)
    ensures r.Some? <==> IsDigits(digits)
    decreases |digits|
  {
    if digits == [] || exists i :: 0 <= i < |digits| && !IsDigit(digits[i]) then None
    else if |digits| == 1 then Some(digits[0] as nat - '0' as nat)
    else
      var last := digits[|digits| - 1] as nat - '0' as nat;
      assert forall i :: 0 <= i < |digits| - 1 ==> digits[..|digits| - 1][i] == digits[i];
      Some(10 * ParseNat(digits[..|digits| - 1]).value + last)
  }

  /** `str(n)` for a natural number: its decimal digits, most significant first. */
  function DecimalText(n: nat): (text: string)
    ensures IsDigits(text)
  {
    var digit := ('0' as int + n % 10) as char;
    if n < 10 then [digit] else DecimalText(n / 10) + [digit]
  }

  /** `int(str(n))` is `n`: every natural number written in decimal parses back to itself. */
  lemma {:induction false} ParseNatOfDecimal(n: nat)
    ensures ParseNat(DecimalText(n)) == Some(n)
  {
    var text := DecimalText(n);
    if n >= 10 {
      ParseNatOfDecimal(n / 10);
      assert text[..|text| - 1] == DecimalText(n / 10);
    }
  }

  /** `str(n)` for an integer: a `-` before the digits of a negative one. */
  function SignedText(n: int): (text: string)
    ensures IsIntText(text)
  {
    if n < 0 then "-" + DecimalText(-n) else DecimalText(n)
  }

  /** `int(str(n)) == n`: a port written back into the configuration file reads as itself. */
  lemma ParseIntOfSigned(n: int)
    ensures ParseInt(SignedText(n)) == Some(n)
  {
    if n < 0 {
      ParseNatOfDecimal(-n);
      assert SignedText(n)[1..] == DecimalText(-n);
    } else {
      ParseNatOfDecimal(n);
    }
  }

  /** What the options settle to. */
  datatype Options = Options(mac: string, ip: string, port: int, secureon: Option<string>)

  /** Why `main` stops before sending: an alias with no `mac` (exit status 1), or a port option that is not an integer. */
  datatype OptionsError = NoMacForAlias(alias: string) | PortNotInteger(text: string)

  /** configparser's fallthrough is "the first tier that has the key". */
  lemma GetIsFirstWith(config: IniConfig, token: string, key: string)
    ensures var section := if config.HasSection(token) then token else DefaultSection;
            config.Get(section, key) == FirstWith(Tiers(config, token), key)
  {
    var tiers := Tiers(config, token);
    if config.HasSection(token) {
      assert tiers[1..] == [config.defaults];
      assert tiers[1..][1..] == [];
    } else {
      assert tiers[1..] == [];
    }
  }

  /**
   * Lines 58-86 of wol.py. `token` is the positional argument; `cliIp`,
   * `cliPort`, `cliSecureOn` are the `-i`, `-p`, `-s` options (`None` when
   * absent).
   */
  method ResolveOptions(token: string, cliIp: Option<string>, cliPort: Option<int>,
                        cliSecureOn: Option<string>, config: IniConfig)
    returns (r: Result<Options, OptionsError>)
    ensures var tiers := Tiers(config, token);
            && (r == Failure(NoMacForAlias(token)) <==>
                  config.HasSection(token) && FirstWith(tiers, "mac").None?)
            && (r.Failure? && r.error.PortNotInteger? <==>
                  !(config.HasSection(token) && FirstWith(tiers, "mac").None?) &&
                  !IsSetPort(cliPort) &&
                  FirstWith(tiers, "port").Some? && ParseInt(FirstWith(tiers, "port").value).None?)
            && (r.Failure? && r.error.PortNotInteger? ==> r.error.text == FirstWith(tiers, "port").value)
    ensures var tiers := Tiers(config, token);
            r.Success? <==>
              !(config.HasSection(token) && FirstWith(tiers, "mac").None?) &&
              !(!IsSetPort(cliPort) && FirstWith(tiers, "port").Some? && ParseInt(FirstWith(tiers, "port").value).None?)
    ensures r.Success? ==>
              var tiers := Tiers(config, token);
              && r.value.mac == (if config.HasSection(token) then FirstWith(tiers, "mac").value else token)
              && r.value.ip == (if IsSetText(cliIp) then cliIp.value else FirstWith(tiers, "ip").GetOr(DefaultIp))
              && r.value.port == (if IsSetPort(cliPort) then cliPort.value
                                  else if FirstWith(tiers, "port").None? then DefaultPort
                                  else ParseInt(FirstWith(tiers, "port").value).value)
              && r.value.secureon == (if IsSetText(cliSecureOn) then cliSecureOn else FirstWith(tiers, "secureon"))
  {
    var mac, ip, port, secureon := token, cliIp, cliPort, cliSecureOn;
    var section := DefaultSection;
    GetIsFirstWith(config, token, "mac");
    GetIsFirstWith(config, token, "ip");
    GetIsFirstWith(config, token, "port");
    GetIsFirstWith(config, token, "secureon");
    if config.HasSection(mac) {
      var alias := mac;
      var entry := config.Get(alias, "mac");
      if entry.None? {
        return Failure(NoMacForAlias(alias));
      }
      mac := entry.value;
      section := alias;
    }
    if !IsSetText(ip) {
      ip := Some(config.Get(section, "ip").GetOr(DefaultIp));
    }
    if !IsSetPort(port) {
      var text := config.Get(section, "port");
      if text.None? {
        port := Some(DefaultPort);
      } else {
        var n := ParseInt(text.value);
        if n.None? {
          return Failure(PortNotInteger(text.value));
        }
        port := n;
      }
    }
    if !IsSetText(secureon) {
      secureon := config.Get(section, "secureon");
    }
    return Success(Options(mac, ip.value, port.value, secureon));
  }
}
