/** Building and parsing replica set names, sandbox names and public exposure host labels. */
module SandboxNames {
  import opened Common
  import opened Text
  import opened Base32
  import opened DnsLabel

  const POD_SUFFIX_LEN := 5
  const PORT_DELIMITER := "--p"
  const MAX_PORT_DIGITS := 5
  const SANDBOX_NAME_MAX_LEN := LABEL_MAX_LEN - 3 - MAX_PORT_DIGITS
  const REPLICA_SET_MAX_LEN := SANDBOX_NAME_MAX_LEN - 1 - POD_SUFFIX_LEN
  const CLUSTER_KEY_MAX_LEN := 32
  const CLUSTER_ID_MAX_LEN := 20
  const NAME_PREFIX := "rs"

  // ---------- The cluster key ----------

  predicate IsByteString(s: string) {
    forall i :: 0 <= i < |s| ==> s[i] as int < 256
  }

  function BytesOf(s: string): (b: seq<Byte>)
    requires IsByteString(s)
    ensures |b| == |s|
  {
    seq(|s|, i requires 0 <= i < |s| => s[i] as int)
  }

  function StringOf(b: seq<Byte>): string {
    seq(|b|, i requires 0 <= i < |b| => b[i] as char)
  }

  predicate ValidClusterID(id: string) {
    |id| <= CLUSTER_ID_MAX_LEN && IsLabel(id)
  }

  function ClusterIDError(id: string): NameError {
    if id == [] then EmptyInput else if |id| > CLUSTER_ID_MAX_LEN then TooLong else InvalidLabel
  }

  /** The lower-case base32 text of a cluster ID. */
  function KeyOf(id: string): string
    requires IsByteString(id)
  {
    ToLower(EncodeToString(BytesOf(id)))
  }

  lemma LabelIsByteString(s: string)
    requires IsLabel(s)
    ensures IsByteString(s)
  {
  }

  function EncodeClusterID(id: string): Result<string, NameError> {
    if !ValidClusterID(id) then Err(ClusterIDError(id))
    else
      LabelIsByteString(id);
      var key := KeyOf(id);
      if |key| > CLUSTER_KEY_MAX_LEN then Err(TooLong)
      else if !IsLabel(key) then Err(InvalidLabel)
      else Ok(key)
  }

  function DecodeClusterKey(key: string): Result<string, NameError> {
    if key == [] then Err(EmptyInput)
    else match DecodeString(ToUpper(key))
         case None => Err(UndecodableKey)
         case Some(b) => Ok(StringOf(b))
  }

  /** A key is 8/5 as long as its ID, rounded up, and made of letters and digits only. */
  lemma KeyShape(id: string)
    requires IsByteString(id)
    ensures |KeyOf(id)| == (8 * |id| + 4) / 5
    ensures forall i :: 0 <= i < |KeyOf(id)| ==> IsAlnum(KeyOf(id)[i])
  {
  }

  lemma StringOfBytesOf(s: string)
    requires IsByteString(s)
    ensures StringOf(BytesOf(s)) == s
  {
  }

  /** Encoding succeeds exactly on valid cluster IDs: neither later check can fail. */
  lemma EncodeSucceeds(id: string)
    ensures EncodeClusterID(id).Ok? <==> ValidClusterID(id)
    ensures ValidClusterID(id) <==> |id| <= 20 && IsLabel(id)
    ensures ValidClusterID(id) ==> IsByteString(id) && EncodeClusterID(id) == Ok(KeyOf(id)) && 0 < |KeyOf(id)| <= CLUSTER_KEY_MAX_LEN
  {
    hide KeyOf;
    if ValidClusterID(id) {
      LabelIsByteString(id);
      KeyShape(id);
    }
  }

  /** Decoding a key gives back the cluster ID it encodes, for every non-empty byte string. */
  lemma KeyRoundTrip(id: string)
    requires IsByteString(id) && id != []
    ensures DecodeClusterKey(KeyOf(id)) == Ok(id)
  {
    hide EncodeToString, DecodeString, ToUpper, ToLower;
    KeyShape(id);
    RoundTrip(BytesOf(id));
    StringOfBytesOf(id);
  }

  // ---------- Replica set and sandbox names ----------

  function NameHead(key: string): string {
    NAME_PREFIX + "-" + key + "-"
  }

  /** The head for a cluster key, completed by a slug of the template in the room that is left. */
  function CompleteName(h: ShortHash, key: string, template: string): Result<string, NameError> {
    var head := NameHead(key);
    var remaining := REPLICA_SET_MAX_LEN - |head|;
    if remaining <= 0 then Err(TooLong)
    else
      match SlugWithHash(h, template, remaining)
      case Err(e) => Err(e)
      case Ok(templateKey) => if IsLabel(head + templateKey) then Ok(head + templateKey) else Err(InvalidLabel)
  }

  function ReplicasetName(h: ShortHash, clusterID: string, template: string): Result<string, NameError> {
    match EncodeClusterID(clusterID)
    case Err(e) => Err(e)
    case Ok(key) => CompleteName(h, key, template)
  }

  function SandboxName(h: ShortHash, clusterID: string, template: string, suffix: string): Result<string, NameError> {
    if suffix == [] then Err(EmptyInput)
    else if '-' in suffix then Err(InvalidSuffix)
    else if |suffix| > POD_SUFFIX_LEN then Err(TooLong)
    else
      match ReplicasetName(h, clusterID, template)
      case Err(e) => Err(e)
      case Ok(rs) =>
        var name := rs + "-" + suffix;
        if !IsLabel(name) then Err(InvalidLabel)
        else if |name| > SANDBOX_NAME_MAX_LEN then Err(TooLong)
        else Ok(name)
  }

  /** A head that starts a label, completed by a label. */
  lemma ConcatLabel(a: string, b: string)
    requires StartsLabel(a) && IsLabel(b) && |a| + |b| <= LABEL_MAX_LEN
    ensures IsLabel(a + b)
  {
    var s := a + b;
    assert s[0] == a[0] && s[|s| - 1] == b[|b| - 1];
    forall i | 0 <= i < |s| ensures IsLabelChar(s[i]) {
      assert s[i] == if i < |a| then a[i] else b[i - |a|];
    }
  }

  /** Label characters beginning with an alphanumeric. */
  predicate StartsLabel(s: string) {
    s != [] && IsAlnum(s[0]) && forall i :: 0 <= i < |s| ==> IsLabelChar(s[i])
  }

  lemma HeadShape(id: string)
    requires ValidClusterID(id)
    ensures IsByteString(id) && |NameHead(KeyOf(id))| <= 36 && StartsLabel(NameHead(KeyOf(id)))
  {
    hide KeyOf;
    LabelIsByteString(id);
    KeyShape(id);
    var key := KeyOf(id);
    var head := NameHead(key);
    forall i | 0 <= i < |head| ensures IsLabelChar(head[i]) {
      assert head[i] == if i < 3 then "rs-"[i] else if i < 3 + |key| then key[i - 3] else '-';
    }
  }

  /** With a slug that fits, the name is the head and the slug, and passes the check. */
  lemma CompleteFrom(h: ShortHash, key: string, template: string, slug: string)
    requires |NameHead(key)| <= 36 && StartsLabel(NameHead(key))
    requires SlugWithHash(h, template, REPLICA_SET_MAX_LEN - |NameHead(key)|) == Ok(slug)
    requires IsLabel(slug) && |slug| <= REPLICA_SET_MAX_LEN - |NameHead(key)|
    ensures CompleteName(h, key, template) == Ok(NameHead(key) + slug) && IsLabel(NameHead(key) + slug)
  {
    hide IsLabel, StartsLabel, SlugWithHash, NameHead;
    ConcatLabel(NameHead(key), slug);
  }

  lemma CompleteFails(h: ShortHash, key: string, template: string)
    requires |NameHead(key)| <= 36
    requires SlugWithHash(h, template, REPLICA_SET_MAX_LEN - |NameHead(key)|).Err?
    ensures CompleteName(h, key, template).Err?
  {
    hide SlugWithHash, NameHead;
  }

  lemma HeadFirst(head: string, slug: string, max: int)
    requires |slug| <= max - |head|
    ensures head <= head + slug && |head + slug| <= max && (head + slug)[|head|..] == slug
  {
  }

  lemma CompleteNameExact(h: ShortHash, key: string, template: string)
    requires |NameHead(key)| <= 36 && StartsLabel(NameHead(key))
    ensures CompleteName(h, key, template).Ok? <==> HasAlnum(template)
    ensures CompleteName(h, key, template).Ok? ==>
              var name := CompleteName(h, key, template).value;
              && IsLabel(name) && |name| <= REPLICA_SET_MAX_LEN && NameHead(key) <= name
              && SlugWithHash(h, template, REPLICA_SET_MAX_LEN - |NameHead(key)|) == Ok(name[|NameHead(key)|..])
  {
    hide IsLabel, StartsLabel, SlugWithHash, HasAlnum, NameHead, CompleteName;
    var max := REPLICA_SET_MAX_LEN - |NameHead(key)|;
    SlugTotal(h, template, max);
    match SlugWithHash(h, template, max)
    case Ok(slug) =>
      CompleteFrom(h, key, template, slug);
      HeadFirst(NameHead(key), slug, REPLICA_SET_MAX_LEN);
    case Err(_) => CompleteFails(h, key, template);
  }

  /**
    A replica set name exists exactly for a valid cluster ID and a template with a letter or digit.
    It is the head for the cluster followed by the template's slug in the room that is left.
   */
  lemma ReplicasetNameExact(h: ShortHash, id: string, template: string)
    ensures ReplicasetName(h, id, template).Ok? <==> ValidClusterID(id) && HasAlnum(template)
    ensures ReplicasetName(h, id, template).Ok? ==>
              var name := ReplicasetName(h, id, template).value;
              && IsLabel(name) && |name| <= REPLICA_SET_MAX_LEN
              && IsByteString(id) && NameHead(KeyOf(id)) <= name
              && SlugWithHash(h, template, REPLICA_SET_MAX_LEN - |NameHead(KeyOf(id))|) == Ok(name[|NameHead(KeyOf(id))|..])
  {
    hide IsLabel, StartsLabel, KeyOf, HasAlnum, NameHead, EncodeClusterID, ValidClusterID, IsByteString, CompleteName, SlugWithHash;
    EncodeSucceeds(id);
    if ValidClusterID(id) {
      HeadShape(id);
      CompleteNameExact(h, KeyOf(id), template);
    }
  }

  predicate ValidSuffix(s: string) {
    1 <= |s| <= POD_SUFFIX_LEN && IsWord(s)
  }

  /**
    A sandbox name exists exactly when, besides, the suffix is one to five letters or digits. It is
    the replica set name, a dash and the suffix.
   */
  lemma SandboxNameExact(h: ShortHash, id: string, template: string, suffix: string)
    ensures SandboxName(h, id, template, suffix).Ok? <==>
              ValidClusterID(id) && HasAlnum(template) && ValidSuffix(suffix)
    ensures SandboxName(h, id, template, suffix).Ok? ==>
              var name, rs := SandboxName(h, id, template, suffix).value, ReplicasetName(h, id, template);
              && IsLabel(name) && |name| <= SANDBOX_NAME_MAX_LEN
              && rs.Ok? && name == rs.value + "-" + suffix
              && IsByteString(id) && NameHead(KeyOf(id)) <= name
  {
    hide KeyOf, ReplicasetName, HasAlnum, NameHead, ValidClusterID, SlugWithHash;
    ReplicasetNameExact(h, id, template);
    if ReplicasetName(h, id, template).Ok? && suffix != [] {
      var rs := ReplicasetName(h, id, template).value;
      SuffixLabel(rs, suffix);
    }
  }

  lemma DashSplits(a: string, s: string, b: string, t: string)
    requires '-' !in s && '-' !in t && a + "-" + s == b + "-" + t
    ensures a == b && s == t
  {
    var x := a + "-" + s;
    assert x[|a|] == '-' && x[|b|] == '-';
    assert forall i :: |a| < i < |x| ==> x[i] == s[i - |a| - 1];
    assert forall i :: |b| < i < |x| ==> x[i] == t[i - |b| - 1];
    assert |a| == |b|;
    assert a == x[..|a|] && s == x[|a| + 1..] && b == x[..|b|] && t == x[|b| + 1..];
  }

  /** Equal sandbox names belong to equal replica set names, cluster IDs and suffixes. */
  lemma SandboxNameInjective(h: ShortHash, a: string, b: string, s: string, t: string, x: string, y: string)
    requires SandboxName(h, a, s, x).Ok? && SandboxName(h, a, s, x) == SandboxName(h, b, t, y)
    ensures ReplicasetName(h, a, s) == ReplicasetName(h, b, t) && a == b && x == y
  {
    hide KeyOf, ReplicasetName, SandboxName, NameHead, HasAlnum, IsLabel, ValidClusterID;
    SandboxNameExact(h, a, s, x);
    SandboxNameExact(h, b, t, y);
    DashSplits(ReplicasetName(h, a, s).value, x, ReplicasetName(h, b, t).value, y);
    ReplicasetNameInjective(h, a, b, s, t);
  }

  lemma SuffixLabel(rs: string, suffix: string)
    requires IsLabel(rs) && |rs| <= REPLICA_SET_MAX_LEN && suffix != []
    ensures '-' !in suffix && |suffix| <= POD_SUFFIX_LEN && IsLabel(rs + "-" + suffix) <==> ValidSuffix(suffix)
  {
    var name := rs + "-" + suffix;
    if ValidSuffix(suffix) {
      ConcatLabel(rs + "-", suffix);
    } else if '-' !in suffix && |suffix| <= POD_SUFFIX_LEN && IsLabel(name) {
      assert forall i :: 0 <= i < |suffix| ==> name[|rs| + 1 + i] == suffix[i];
      assert false;
    }
  }

  // ---------- Parsing names ----------

  datatype Parsed = Parsed(clusterID: string, clusterKey: string)

  /** The text between the prefix and the next dash. */
  function ExtractClusterKey(name: string): Result<string, NameError> {
    if name == [] then Err(EmptyInput)
    else if !(NAME_PREFIX + "-" <= name) then Err(MissingPrefix)
    else
      var parts := Split(name[3..], '-');
      if |parts| < 2 || parts[0] == [] then Err(MissingClusterKey) else Ok(parts[0])
  }

  function ParseSandboxName(name: string): Result<Parsed, NameError> {
    match ExtractClusterKey(name)
    case Err(e) => Err(e)
    case Ok(key) =>
      match DecodeClusterKey(key)
      case Err(e) => Err(e)
      case Ok(id) => Ok(Parsed(id, key))
  }

  lemma ExtractFromHead(key: string, rest: string)
    requires key != [] && '-' !in key
    ensures ExtractClusterKey(NameHead(key) + rest) == Ok(key)
  {
    var name := NameHead(key) + rest;
    assert name[..3] == "rs-" && name[3..] == key + ['-'] + rest;
    SplitConcat(key, rest, '-');
    SplitWhole(key, '-');
  }

  /** Whatever follows the head, a name built for a cluster parses to that cluster. */
  lemma ParseFromHead(id: string, name: string)
    requires ValidClusterID(id) && IsByteString(id) && NameHead(KeyOf(id)) <= name
    ensures ParseSandboxName(name) == Ok(Parsed(id, KeyOf(id)))
  {
    hide KeyOf, NameHead, DecodeClusterKey, ExtractClusterKey;
    var key := KeyOf(id);
    EncodeSucceeds(id);
    KeyShape(id);
    assert '-' !in key;
    ExtractFromHead(key, name[|NameHead(key)|..]);
    assert name == NameHead(key) + name[|NameHead(key)|..];
    KeyRoundTrip(id);
  }

  /**
    Exactly which names parse, and to what: those that begin with the head for a key without dashes
    that decodes.
   */
  lemma ParseExactly(name: string, id: string, key: string)
    ensures ParseSandboxName(name) == Ok(Parsed(id, key)) <==>
              key != [] && '-' !in key && NameHead(key) <= name && DecodeClusterKey(key) == Ok(id)
  {
    hide DecodeClusterKey, ExtractClusterKey, NameHead;
    ExtractExactly(name, key);
  }

  lemma ExtractExactly(name: string, key: string)
    ensures ExtractClusterKey(name) == Ok(key) <==> key != [] && '-' !in key && NameHead(key) <= name
  {
    hide Split;
    if NameHead(key) <= name && key != [] && '-' !in key {
      assert name == NameHead(key) + name[|NameHead(key)|..];
      ExtractFromHead(key, name[|NameHead(key)|..]);
    }
    if ExtractClusterKey(name) == Ok(key) {
      var parts := Split(name[3..], '-');
      JoinSplit(name[3..], '-');
      SplitPieces(name[3..], '-');
      assert parts[0] in parts && parts == [key] + parts[1..];
      JoinConcat([key], parts[1..], '-');
      assert Join([key], '-') == key;
      assert name[..3] == "rs-" && name == name[..3] + name[3..];
      assert NameHead(key) == "rs-" + key + "-" <= name;
    }
  }

  /** Equal replica set names belong to equal cluster IDs. */
  lemma ReplicasetNameInjective(h: ShortHash, a: string, b: string, s: string, t: string)
    requires ReplicasetName(h, a, s).Ok? && ReplicasetName(h, a, s) == ReplicasetName(h, b, t)
    ensures a == b
  {
    hide KeyOf, ReplicasetName, NameHead, ParseSandboxName;
    ReplicasetNameExact(h, a, s);
    ReplicasetNameExact(h, b, t);
    ParseFromHead(a, ReplicasetName(h, a, s).value);
    ParseFromHead(b, ReplicasetName(h, b, t).value);
  }
}
