/**
 * The checks the `add` command applies to its answers: the name prompt's
 * validate hook, the IP prompt's validate hook with its IPv4 regular
 * expression, the `.pem` extension test and the permission advisory.
 */
module Validators {

  import opened Text

  // ---------------------------------------------------------------------
  // Name (src/index.ts:116-121)

  datatype NameCheck = NameRequired | NameAccepted

  /** The name hook: "Name is required" when the trimmed input is empty. */
  function ValidateName(input: string): (r: NameCheck)
    ensures r == NameAccepted <==> exists i :: 0 <= i < |input| && !IsJsSpace(input[i])
  {
    if Trim(input) == "" then NameRequired else NameAccepted
  }

  lemma NameExamples()
    ensures ValidateName("") == NameRequired
    ensures ValidateName("   ") == NameRequired
    ensures ValidateName("\t\n") == NameRequired
    ensures ValidateName("prod-box") == NameAccepted
  {
    assert !IsJsSpace("prod-box"[0]);
  }

  // ---------------------------------------------------------------------
  // IP address (src/index.ts:190-200)

  predicate IsDigit(c: char) {
    '0' <= c <= '9'
  }

  /** `[0-9][0-9]?` matched against the whole of `o`. */
  predicate DigitThenOptionalDigit(o: string) {
    || (|o| == 1 && IsDigit(o[0]))
    || (|o| == 2 && IsDigit(o[0]) && IsDigit(o[1]))
  }

  /** `[01]?[0-9][0-9]?` matched against the whole of `o`. */
  predicate ShortOctetPattern(o: string) {
    || DigitThenOptionalDigit(o)
    || (|o| >= 1 && (o[0] == '0' || o[0] == '1') && DigitThenOptionalDigit(o[1..]))
  }

  /** One octet of the IP regex, `25[0-5]|2[0-4][0-9]|[01]?[0-9][0-9]?`,
      matched against the whole of `o`, alternative by alternative. */
  predicate OctetPattern(o: string) {
    || (|o| == 3 && o[0] == '2' && o[1] == '5' && '0' <= o[2] <= '5')
    || (|o| == 3 && o[0] == '2' && '0' <= o[1] <= '4' && IsDigit(o[2]))
    || ShortOctetPattern(o)
  }

  /** The whole regex `^(?:OCTET\.){3}OCTET$`: `s` is four octets joined by
      dots (no octet can contain a dot, so the pieces are the dot-separated
      parts of `s`). */
  ghost predicate MatchesIpRegex(s: string) {
    exists a, b, c, d ::
      OctetPattern(a) && OctetPattern(b) && OctetPattern(c) && OctetPattern(d) &&
      s == a + "." + b + "." + c + "." + d
  }

  /** The regex, decided by splitting at the dots. */
  predicate IpPattern(s: string) {
    var parts := Split(s, '.');
    |parts| == 4 &&
    OctetPattern(parts[0]) && OctetPattern(parts[1]) && OctetPattern(parts[2]) && OctetPattern(parts[3])
  }

  predicate AllDigits(o: string) {
    forall i :: 0 <= i < |o| ==> IsDigit(o[i])
  }

  /** The decimal value of a string of digits. */
  function DecimalValue(o: string): nat
    requires AllDigits(o)
  {
    if o == [] then 0 else DecimalValue(o[..|o| - 1]) * 10 + (o[|o| - 1] as int - '0' as int)
  }

  /** An octet as a person reads it: one to three ASCII digits whose value is
      at most 255. Leading zeros are allowed. */
  predicate IsOctet(o: string) {
    1 <= |o| <= 3 && AllDigits(o) && DecimalValue(o) <= 255
  }

  /** A dotted quad: exactly four dot-separated octets. */
  predicate IsDottedQuad(s: string) {
    var parts := Split(s, '.');
    |parts| == 4 && IsOctet(parts[0]) && IsOctet(parts[1]) && IsOctet(parts[2]) && IsOctet(parts[3])
  }

  datatype IpCheck = IpRequired | IpMalformed | IpAccepted

  /** The IP hook: "IP address is required" for blank input, then the regex. */
  function ValidateIp(input: string): (r: IpCheck)
    ensures r == IpRequired <==> forall i :: 0 <= i < |input| ==> IsJsSpace(input[i])
    ensures r == IpAccepted ==> IpPattern(input)
  {
    if Trim(input) == "" then IpRequired
    else if IpPattern(input) then IpAccepted
    else IpMalformed
  }

  /** The IP hook rejects blank input as missing, and accepts exactly the
      dotted quads: four dot-separated octets of one to three digits, each at
      most 255. */
  lemma ValidateIpSpec(input: string)
    ensures ValidateIp(input) == IpRequired <==> forall i :: 0 <= i < |input| ==> IsJsSpace(input[i])
    ensures ValidateIp(input) == IpAccepted <==> IsDottedQuad(input)
  {
    IpPatternIsDottedQuad(input);
    IpPatternStartsWithDigit(input);
  }

  /** The three regex alternatives for one octet say exactly "one to three
      digits with value at most 255". */
  lemma OctetPatternIsOctet(o: string)
    ensures OctetPattern(o) <==> IsOctet(o)
  {
    if |o| == 1 && AllDigits(o) {
      assert o[..0] == [];
      assert DecimalValue(o) == o[0] as int - '0' as int;
    } else if |o| == 1 {
    } else if |o| == 2 && AllDigits(o) {
      assert o[..1][..0] == [];
      assert DecimalValue(o[..1]) == o[0] as int - '0' as int;
    } else if |o| == 2 {
    } else if |o| == 3 && AllDigits(o) {
      assert o[..2][..1] == o[..1];
      assert DecimalValue(o[..1]) == o[0] as int - '0' as int;
      assert DecimalValue(o) == (o[0] as int - '0' as int) * 100
                                + (o[1] as int - '0' as int) * 10
                                + (o[2] as int - '0' as int);
      assert ShortOctetPattern(o) <==> (o[0] == '0' || o[0] == '1') && IsDigit(o[1]) && IsDigit(o[2]);
    } else {
      assert !ShortOctetPattern(o);
    }
  }

  lemma IpPatternIsDottedQuad(s: string)
    ensures IpPattern(s) <==> IsDottedQuad(s)
  {
    var parts := Split(s, '.');
    if |parts| == 4 {
      OctetPatternIsOctet(parts[0]);
      OctetPatternIsOctet(parts[1]);
      OctetPatternIsOctet(parts[2]);
      OctetPatternIsOctet(parts[3]);
    }
  }

  /** A string the regex accepts starts with a digit, so it is not blank. */
  lemma IpPatternStartsWithDigit(s: string)
    ensures IpPattern(s) ==> |s| > 0 && IsDigit(s[0]) && Trim(s) != ""
  {
    if !IpPattern(s) {
      return;
    }
    var parts := Split(s, '.');
    JoinSplit(s, '.');
    assert Join(parts, '.') == parts[0] + ['.'] + Join(parts[1..], '.');
    assert |parts[0]| > 0 && IsDigit(parts[0][0]);
    assert s[0] == parts[0][0];
    assert !IsJsSpace(s[0]);
  }

  /** Splitting at dots decides the regex exactly: the split-based test
      holds if and only if some four octets joined by dots give `s`. */
  lemma IpPatternIsRegex(s: string)
    ensures IpPattern(s) <==> MatchesIpRegex(s)
  {
    if IpPattern(s) {
      var p := Split(s, '.');
      JoinSplit(s, '.');
      assert p == [p[0], p[1], p[2], p[3]];
      Join4(p[0], p[1], p[2], p[3], '.');
    }
    if MatchesIpRegex(s) {
      var a, b, c, d :|
        OctetPattern(a) && OctetPattern(b) && OctetPattern(c) && OctetPattern(d) &&
        s == a + "." + b + "." + c + "." + d;
      OctetHasNoDot(a);
      OctetHasNoDot(b);
      OctetHasNoDot(c);
      OctetHasNoDot(d);
      Join4(a, b, c, d, '.');
      SplitJoin([a, b, c, d], '.');
    }
  }

  lemma OctetHasNoDot(o: string)
    requires OctetPattern(o)
    ensures '.' !in o
  {
    OctetPatternIsOctet(o);
  }

  /** The regex accepts blank-free inputs only: `ValidateIp` accepts exactly
      the strings the regular expression matches. */
  lemma IpAcceptedIsRegex(s: string)
    ensures ValidateIp(s) == IpAccepted <==> MatchesIpRegex(s)
  {
    IpPatternIsRegex(s);
    IpPatternStartsWithDigit(s);
  }

  /** The hook's verdict on four pieces joined by dots. */
  lemma ValidateQuad(s: string, a: string, b: string, c: string, d: string)
    requires '.' !in a && '.' !in b && '.' !in c && '.' !in d
    requires s == a + "." + b + "." + c + "." + d
    requires exists i :: 0 <= i < |a| && !IsJsSpace(a[i])
    ensures ValidateIp(s) == (if OctetPattern(a) && OctetPattern(b) && OctetPattern(c) && OctetPattern(d)
                              then IpAccepted else IpMalformed)
  {
    Join4(a, b, c, d, '.');
    SplitJoin([a, b, c, d], '.');
    var i :| 0 <= i < |a| && !IsJsSpace(a[i]);
    assert s[i] == a[i];
  }

  lemma IpAcceptsPrivateAddress()
    ensures ValidateIp("192.168.1.1") == IpAccepted
  {
    var s := "192.168.1.1";
    assert !IsJsSpace("192"[0]) && OctetPattern("192") && OctetPattern("168") && OctetPattern("1");
    ValidateQuad(s, "192", "168", "1", "1");
  }

  lemma IpAcceptsLeadingZero()
    ensures ValidateIp("010.0.0.1") == IpAccepted
  {
    var s := "010.0.0.1";
    assert !IsJsSpace("010"[0]) && OctetPattern("010") && OctetPattern("0") && OctetPattern("1");
    ValidateQuad(s, "010", "0", "0", "1");
  }

  lemma IpRejectsOctetAbove255()
    ensures ValidateIp("999.1.1.1") == IpMalformed
  {
    var s := "999.1.1.1";
    assert !IsJsSpace("999"[0]) && !OctetPattern("999");
    ValidateQuad(s, "999", "1", "1", "1");
  }

  lemma IpRejects256()
    ensures ValidateIp("256.0.0.0") == IpMalformed
  {
    var s := "256.0.0.0";
    assert !IsJsSpace("256"[0]) && !OctetPattern("256");
    ValidateQuad(s, "256", "0", "0", "0");
  }

  lemma IpRequiresInput()
    ensures ValidateIp("") == IpRequired
  {
  }

  /** The regex sees the untrimmed input, so padding makes it malformed. */
  lemma IpRejectsPadded(s: string)
    requires s == " 1.1.1.1"
    ensures ValidateIp(s) == IpMalformed
  {
    assert !IsJsSpace(" 1"[1]);
    ValidateQuad(s, " 1", "1", "1", "1");
  }

  // ---------------------------------------------------------------------
  // Key-file extension (src/index.ts:156-170)

  /** `pemFilePath.toLowerCase().endsWith('.pem')`. */
  predicate HasPemExtension(path: string)
    ensures HasPemExtension(path) ==> |path| >= 4 && path[|path| - 4] == '.'
  {
    EndsWith(ToLowerAscii(path), ".pem")
  }

  /** The extension test is a case-insensitive look at the last four characters. */
  lemma PemExtensionIff(path: string)
    ensures HasPemExtension(path) <==>
      && |path| >= 4
      && path[|path| - 4] == '.'
      && (path[|path| - 3] == 'p' || path[|path| - 3] == 'P')
      && (path[|path| - 2] == 'e' || path[|path| - 2] == 'E')
      && (path[|path| - 1] == 'm' || path[|path| - 1] == 'M')
  {
    var low := ToLowerAscii(path);
    if |path| >= 4 {
      var n := |path|;
      assert low[n - 4..] == [low[n - 4], low[n - 3], low[n - 2], low[n - 1]];
    }
  }

  // ---------------------------------------------------------------------
  // Key-file permissions (src/index.ts:173-183)

  /** `0o777`: the owner, group and other rwx bits. */
  const PermissionMask: bv32 := 0x1FF
  /** `0o600`: read and write for the owner, nothing for anyone else. */
  const OwnerReadWrite: bv32 := 0x180

  /** `stats.mode & 0o777`, on the 32-bit pattern JavaScript's `&` uses. */
  function PermissionBits(mode: bv32): (bits: bv32)
    ensures bits < 0x200
    ensures bits == mode % 0x200
  {
    mode & PermissionMask
  }

  /** The advisory fires when the permission bits are anything but `0o600`. */
  predicate InsecurePermissions(mode: bv32)
    ensures InsecurePermissions(mode) <==> mode % 0x200 != OwnerReadWrite
  {
    PermissionBits(mode) != OwnerReadWrite
  }

  /** No warning exactly when the owner has read and write but not execute,
      and group and others have nothing; file-type bits play no part. */
  lemma InsecurePermissionsIff(mode: bv32)
    ensures !InsecurePermissions(mode) <==> (mode & 0x1C0 == 0x180 && mode & 0x3F == 0)
    ensures InsecurePermissions(mode) == InsecurePermissions(mode & PermissionMask)
  {
  }

  /** A regular file with mode `0o100600` passes; `0o100644` warns; so does
      the stricter `0o100400`, since only an exact `0o600` is accepted. */
  lemma PermissionExamples()
    ensures !InsecurePermissions(0x8180)
    ensures InsecurePermissions(0x81A4)
    ensures InsecurePermissions(0x8100)
  {
  }
}
