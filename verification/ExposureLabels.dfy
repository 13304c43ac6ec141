/** Public exposure host labels: a sandbox name, a delimiter and a port in one DNS label. */
module ExposureLabels {
  import opened Common
  import opened Text
  import opened Decimal
  import opened DnsLabel
  import opened SandboxNames

  predicate ValidPort(port: int) {
    0 < port <= 65535
  }

  function BuildExposureHostLabel(name: string, port: int): Result<string, NameError> {
    if name == [] then Err(EmptyInput)
    else if !IsLabel(name) then Err(InvalidLabel)
    else if !ValidPort(port) then Err(InvalidPort)
    else
      var host := name + PORT_DELIMITER + Itoa(port);
      if |host| > LABEL_MAX_LEN then Err(TooLong)
      else if !IsLabel(host) then Err(InvalidLabel)
      else Ok(host)
  }

  /** Where `sub` occurs in `s`. */
  predicate OccursAt(s: string, sub: string, i: int) {
    0 <= i && i + |sub| <= |s| && s[i..i + |sub|] == sub
  }

  /** The largest index at most `i` where `sub` occurs, or -1. */
  function LastIndexFrom(s: string, sub: string, i: int): (k: int)
    requires -1 <= i
    ensures -1 <= k <= i
    ensures k >= 0 ==> OccursAt(s, sub, k)
    ensures forall j :: k < j <= i ==> !OccursAt(s, sub, j)
    decreases i
  {
    if i < 0 then -1 else if OccursAt(s, sub, i) then i else LastIndexFrom(s, sub, i - 1)
  }

  function LastIndex(s: string, sub: string): int {
    LastIndexFrom(s, sub, |s|)
  }

  /** The port text after the last delimiter. */
  function PortText(host: string): string
    requires LastIndex(host, PORT_DELIMITER) > 0
  {
    host[LastIndex(host, PORT_DELIMITER) + 3..]
  }

  function ParseExposureHostLabel(host: string): Result<(string, int), NameError> {
    if host == [] then Err(EmptyInput)
    else
      var idx := LastIndex(host, PORT_DELIMITER);
      if idx <= 0 then Err(MissingPort)
      else if !IsLabel(host[..idx]) then Err(InvalidLabel)
      else if PortText(host) == [] then Err(MissingPort)
      else
        match Atoi(PortText(host))
        case None => Err(InvalidPort)
        case Some(port) => if ValidPort(port) then Ok((host[..idx], port)) else Err(InvalidPort)
  }

  /** The last delimiter is the one before the digits, whatever the name contains. */
  lemma DelimiterBeforeDigits(name: string, digits: string)
    requires AllDigits(digits)
    ensures LastIndex(name + PORT_DELIMITER + digits, PORT_DELIMITER) == |name|
  {
    var s := name + PORT_DELIMITER + digits;
    assert s[|name|..|name| + 3] == PORT_DELIMITER;
    assert OccursAt(s, PORT_DELIMITER, |name|);
    forall j | |name| < j ensures !OccursAt(s, PORT_DELIMITER, j) {
      if j + 3 <= |s| {
        assert s[j + 2] == digits[j - |name| - 1];
        assert s[j..j + 3][2] == s[j + 2];
      }
    }
  }

  lemma HostIsLabel(name: string, port: nat)
    requires IsLabel(name) && |name + PORT_DELIMITER + Itoa(port)| <= LABEL_MAX_LEN
    ensures IsLabel(name + PORT_DELIMITER + Itoa(port))
  {
    var digits := Itoa(port);
    var s := name + PORT_DELIMITER + digits;
    assert s[0] == name[0] && s[|s| - 1] == digits[|digits| - 1];
    assert IsDigit(digits[|digits| - 1]);
    forall i | 0 <= i < |s| ensures IsLabelChar(s[i]) {
      assert s[i] == if i < |name| then name[i] else if i < |name| + 3 then PORT_DELIMITER[i - |name|] else digits[i - |name| - 3];
      assert i >= |name| + 3 ==> IsDigit(digits[i - |name| - 3]);
    }
  }

  /** A host label exists exactly for a valid name and port that fit into 63 characters together. */
  lemma BuildExact(name: string, port: int)
    ensures BuildExposureHostLabel(name, port).Ok? <==>
              IsLabel(name) && 0 < port <= 65535 && |name| + 3 + |Itoa(port)| <= 63
  {
    hide IsLabel, Itoa;
    if name != [] && IsLabel(name) && ValidPort(port) && |name + PORT_DELIMITER + Itoa(port)| <= LABEL_MAX_LEN {
      HostIsLabel(name, port);
    }
    NonEmptyLabel(name);
  }

  lemma NonEmptyLabel(s: string)
    ensures IsLabel(s) ==> s != []
  {
  }

  /** Parsing undoes building, for every name, even one that itself contains the delimiter. */
  lemma ParseBuild(name: string, port: int)
    requires BuildExposureHostLabel(name, port).Ok?
    ensures ParseExposureHostLabel(BuildExposureHostLabel(name, port).value) == Ok((name, port))
  {
    hide IsLabel, Itoa, Atoi, LastIndex;
    var host := name + PORT_DELIMITER + Itoa(port);
    DelimiterBeforeDigits(name, Itoa(port));
    NonEmptyLabel(name);
    assert host[..|name|] == name && host[|name| + 3..] == Itoa(port);
    AtoiItoa(port);
  }

  lemma SplitAtDelimiter(host: string)
    requires LastIndex(host, PORT_DELIMITER) > 0
    ensures LastIndex(host, PORT_DELIMITER) <= |host|
    ensures host == host[..LastIndex(host, PORT_DELIMITER)] + PORT_DELIMITER + PortText(host)
  {
  }

  /**
    Building undoes parsing exactly when the port text has no sign and no leading zero and the
    label is at most 63 characters: the parser also accepts texts the builder never writes.
   */
  lemma BuildParse(host: string)
    requires ParseExposureHostLabel(host).Ok?
    ensures LastIndex(host, PORT_DELIMITER) > 0 && PortText(host) != []
    ensures var (name, port) := ParseExposureHostLabel(host).value;
            BuildExposureHostLabel(name, port) == Ok(host) <==>
            '1' <= PortText(host)[0] <= '9' && |host| <= LABEL_MAX_LEN
  {
    hide IsLabel, Itoa, LastIndex, PortText, Atoi;
    SplitAtDelimiter(host);
    var (name, port) := ParseExposureHostLabel(host).value;
    NonEmptyLabel(name);
    BuiltFrom(host, name, port, PortText(host));
  }

  lemma BuiltFrom(host: string, name: string, port: int, text: string)
    requires host == name + PORT_DELIMITER + text && name != [] && IsLabel(name) && ValidPort(port)
    requires text != [] && Atoi(text) == Some(port)
    ensures BuildExposureHostLabel(name, port) == Ok(host) <==> '1' <= text[0] <= '9' && |host| <= LABEL_MAX_LEN
  {
    hide IsLabel, Itoa, Atoi;
    var built := name + PORT_DELIMITER + Itoa(port);
    ValueItoa(port);
    assert built[|name| + 3..] == Itoa(port) && host[|name| + 3..] == text;
    if '1' <= text[0] <= '9' {
      CanonicalPort(text);
    } else {
      assert IsDigit(Itoa(port)[0]);
    }
    if built == host && |host| <= LABEL_MAX_LEN {
      HostIsLabel(name, port);
    }
  }

  lemma CanonicalPort(text: string)
    requires text != [] && '1' <= text[0] <= '9' && Atoi(text).Some?
    ensures Atoi(text).value >= 0 && Itoa(Atoi(text).value) == text
  {
    ItoaValue(text);
  }

  /**
    Exactly which host labels parse, and to what. Every text with the delimiter is a name, the last
    delimiter and a port text; it parses to that name and the port's number if and only if the name
    is a label and the number is a valid port.
   */
  lemma ParseExactly(name: string, text: string, port: int)
    requires forall j :: |name| < j ==> !OccursAt(name + PORT_DELIMITER + text, PORT_DELIMITER, j)
    ensures ParseExposureHostLabel(name + PORT_DELIMITER + text) == Ok((name, port)) <==>
              IsLabel(name) && Atoi(text) == Some(port) && ValidPort(port)
    ensures ParseExposureHostLabel(name + PORT_DELIMITER + text).Ok? ==>
              ParseExposureHostLabel(name + PORT_DELIMITER + text).value.0 == name
  {
    hide IsLabel, Atoi, ValidPort;
    var host := name + PORT_DELIMITER + text;
    assert host[|name|..|name| + 3] == PORT_DELIMITER;
    assert OccursAt(host, PORT_DELIMITER, |name|);
    assert LastIndex(host, PORT_DELIMITER) == |name|;
    assert host[..|name|] == name && host[|name| + 3..] == text;
    NonEmptyLabel(name);
    NothingIsNoNumber();
  }

  lemma NothingIsNoNumber()
    ensures Atoi("") == None
  {
  }

  lemma WithoutDelimiter(host: string)
    requires forall j :: 0 <= j ==> !OccursAt(host, PORT_DELIMITER, j)
    ensures ParseExposureHostLabel(host).Err?
  {
    hide IsLabel, Atoi, ValidPort;
  }

  /** The parser accepts a padded port, which the builder never writes. */
  lemma PaddedPortParses(name: string)
    requires IsLabel(name)
    ensures ParseExposureHostLabel(name + PORT_DELIMITER + "080") == Ok((name, 80))
  {
    hide IsLabel, LastIndex;
    var host := name + PORT_DELIMITER + "080";
    NonEmptyLabel(name);
    DelimiterBeforeDigits(name, "080");
    assert host[..|name|] == name && host[|name| + 3..] == "080";
    assert "080"[..2] == "08" && "08"[..1] == "0" && "0"[..0] == "";
    assert Value("0") == 0 && Value("08") == 8 && Value("080") == 80;
  }

  /**
    End to end: for every valid cluster ID, every template with a letter or digit, every suffix
    of one to five letters or digits and every port, the sandbox name and its host label exist
    within 55 and 63 characters, and parsing the label gives the sandbox name and the port, and
    parsing that name the cluster ID.
   */
  lemma EndToEnd(h: ShortHash, id: string, template: string, suffix: string, port: int)
    requires ValidClusterID(id) && HasAlnum(template) && ValidSuffix(suffix) && ValidPort(port)
    ensures var sandbox := SandboxName(h, id, template, suffix);
            && sandbox.Ok? && |sandbox.value| <= 55
            && var host := BuildExposureHostLabel(sandbox.value, port);
            && host.Ok? && |host.value| <= 63
            && ParseExposureHostLabel(host.value) == Ok((sandbox.value, port))
            && var parsed := ParseSandboxName(sandbox.value);
            && parsed.Ok? && parsed.value.clusterID == id && EncodeClusterID(id) == Ok(parsed.value.clusterKey)
  {
    hide IsLabel, SandboxName, ParseExposureHostLabel, ParseSandboxName, EncodeClusterID, HasAlnum, ValidSuffix, KeyOf, NameHead, Itoa, ValidClusterID;
    SandboxNameExact(h, id, template, suffix);
    var name := SandboxName(h, id, template, suffix).value;
    ItoaPortLength(port);
    BuildExact(name, port);
    ParseBuild(name, port);
    ParseFromHead(id, name);
    EncodeSucceeds(id);
  }
}
