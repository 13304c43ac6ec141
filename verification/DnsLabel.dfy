/** Turning free text into DNS labels (section 2.1 of RFC 1123) of bounded length. */
module DnsLabel {
  import opened Common
  import opened Text

  const LABEL_MAX_LEN := 63
  const HASH_LEN := 8

  datatype NameError =
    | EmptyInput
    | NormalizedEmpty
    | BadMaxLength
    | InvalidLabel
    | TooLong
    | InvalidSuffix
    | MissingPrefix
    | MissingClusterKey
    | UndecodableKey
    | MissingPort
    | InvalidPort

  predicate IsAlnum(c: char) {
    'a' <= c <= 'z' || '0' <= c <= '9'
  }

  predicate IsLabelChar(c: char) {
    IsAlnum(c) || c == '-'
  }

  /** IsDNS1123Label. */
  predicate IsLabel(s: string) {
    && 1 <= |s| <= LABEL_MAX_LEN
    && IsAlnum(s[0]) && IsAlnum(s[|s| - 1])
    && forall i :: 0 <= i < |s| ==> IsLabelChar(s[i])
  }

  // ---------- Normalization ----------

  /** What the loop still writes for the rest `s`: alphanumerics, and one dash for each run of others. */
  function Collapse(s: string, prevDash: bool): string {
    if s == [] then []
    else if IsAlnum(s[0]) then [s[0]] + Collapse(s[1..], false)
    else (if prevDash then [] else "-") + Collapse(s[1..], true)
  }

  function TrimDashes(s: string): string {
    TrimRight(TrimLeft(s, '-'), '-')
  }

  function Normalize(input: string): Result<string, NameError> {
    if input == [] then Err(EmptyInput)
    else
      var out := TrimDashes(Collapse(ToLower(input), false));
      if out == [] then Err(NormalizedEmpty) else Ok(out)
  }

  lemma CollapseAt(s: string, i: nat, prevDash: bool)
    requires i < |s|
    ensures Collapse(s[i..], prevDash) ==
            if IsAlnum(s[i]) then [s[i]] + Collapse(s[i + 1..], false)
            else (if prevDash then [] else "-") + Collapse(s[i + 1..], true)
  {
    assert s[i..][1..] == s[i + 1..];
  }

  lemma CollapseEnd(prevDash: bool)
    ensures Collapse([], prevDash) == []
  {
  }

  lemma AppendPiece(b: string, piece: string, rest: string)
    ensures b + (piece + rest) == (b + piece) + rest
    ensures piece == [] ==> b + piece == b
  {
  }

  method NormalizeToDNSLabel(input: string) returns (r: Result<string, NameError>)
    ensures r == Normalize(input)
  {
    hide Collapse, TrimDashes, IsAlnum, ToLower;
    if input == [] {
      return Err(EmptyInput);
    }
    var lower := ToLower(input);
    var b: string := [];
    var prevDash := false;
    var i := 0;
    assert lower[0..] == lower;
    while i < |lower|
      invariant 0 <= i <= |lower|
      invariant b + Collapse(lower[i..], prevDash) == Collapse(lower, false)
    {
      CollapseAt(lower, i, prevDash);
      if IsAlnum(lower[i]) {
        AppendPiece(b, [lower[i]], Collapse(lower[i + 1..], false));
        b := b + [lower[i]];
        prevDash := false;
      } else if !prevDash {
        AppendPiece(b, "-", Collapse(lower[i + 1..], true));
        b := b + "-";
        prevDash := true;
      } else {
        AppendPiece(b, [], Collapse(lower[i + 1..], true));
      }
      i := i + 1;
    }
    CollapseEnd(prevDash);
    assert lower[i..] == [];
    assert b + [] == b;
    var out := TrimDashes(b);
    r := if out == [] then Err(NormalizedEmpty) else Ok(out);
  }

  /** How many alphanumerics `s` starts with. */
  function RunLength(s: string): (n: nat)
    ensures n <= |s|
    ensures forall i :: 0 <= i < n ==> IsAlnum(s[i])
    ensures n < |s| ==> !IsAlnum(s[n])
  {
    if s == [] || !IsAlnum(s[0]) then 0 else 1 + RunLength(s[1..])
  }

  /** The maximal alphanumeric runs of `s`, in order. */
  function Words(s: string): (ws: seq<string>)
    ensures forall i :: 0 <= i < |ws| ==> IsWord(ws[i])
    decreases |s|
  {
    if s == [] then []
    else if !IsAlnum(s[0]) then Words(s[1..])
    else [s[..RunLength(s)]] + Words(s[RunLength(s)..])
  }

  predicate IsWord(w: string) {
    w != [] && forall i :: 0 <= i < |w| ==> IsAlnum(w[i])
  }

  lemma {:induction false} CollapseRun(s: string, n: nat, prevDash: bool)
    requires n <= |s| && forall i :: 0 <= i < n ==> IsAlnum(s[i])
    ensures Collapse(s, prevDash) == s[..n] + Collapse(s[n..], if n == 0 then prevDash else false)
  {
    hide Collapse, IsAlnum;
    assert s[0..] == s;
    if n > 0 {
      CollapseAt(s, 0, prevDash);
      CollapseRun(s[1..], n - 1, false);
      RunPieces(s, n);
      AppendPiece([s[0]], s[1..][..n - 1], Collapse(s[n..], false));
    }
  }

  lemma RunPieces(s: string, n: nat)
    requires 0 < n <= |s|
    ensures s[1..][n - 1..] == s[n..] && [s[0]] + s[1..][..n - 1] == s[..n]
  {
  }

  /** Joined words of at least one word begin and end with an alphanumeric. */
  lemma {:induction false} JoinedEnds(ws: seq<string>)
    requires |ws| > 0 && forall i :: 0 <= i < |ws| ==> IsWord(ws[i])
    ensures var j := Join(ws, '-');
            j != [] && IsAlnum(j[0]) && IsAlnum(j[|j| - 1]) && forall i :: 0 <= i < |j| ==> IsLabelChar(j[i])
  {
    if |ws| > 1 {
      JoinedEnds(ws[1..]);
    }
  }

  /** The words of a text that starts with a run are that run and the words of the rest. */
  lemma WordsRun(s: string)
    requires s != [] && IsAlnum(s[0])
    ensures var n := RunLength(s); Words(s) == [s[..n]] + Words(s[n..])
    ensures var n := RunLength(s); n > 0 && Collapse(s, true) == s[..n] + Collapse(s[n..], false)
  {
    CollapseRun(s, RunLength(s), true);
  }

  lemma JoinCons(w: string, ws: seq<string>)
    ensures Join([w] + ws, '-') == if ws == [] then w else w + "-" + Join(ws, '-')
  {
    assert ([w] + ws)[1..] == ws;
  }

  /** The words joined by single dashes, and a dash more if junk follows the last one. */
  function Joined(s: string): string {
    if Words(s) == [] then "" else Join(Words(s), '-') + (if s != [] && IsAlnum(s[|s| - 1]) then "" else "-")
  }

  lemma {:induction false} CollapseFromRun(s: string)
    requires s != [] && IsAlnum(s[0])
    ensures Collapse(s, true) == Joined(s)
    decreases |s|, 0
  {
    hide Collapse, Words, Join, Joined;
    var n := RunLength(s);
    var w, rest := s[..n], s[n..];
    WordsRun(s);
    CollapseIsJoin(rest);
    assert s == w + rest;
    JoinedRun(w, rest);
    if rest == [] {
      CollapseEnd(false);
    } else {
      CollapseStart(rest);
    }
  }

  /** What the loop writes after a dash. */
  lemma {:induction false} CollapseIsJoin(s: string)
    ensures Collapse(s, true) == Joined(s)
    decreases |s|, 1
  {
    if s == [] {
    } else if !IsAlnum(s[0]) {
      CollapseIsJoin(s[1..]);
      assert |s| > 1 ==> s[1..][|s| - 2] == s[|s| - 1];
    } else {
      CollapseFromRun(s);
    }
  }

  /** A run, then junk: the run, a dash, and what the loop writes for the rest. */
  lemma JoinedRun(w: string, rest: string)
    requires IsWord(w) && (rest != [] ==> !IsAlnum(rest[0]))
    requires Words(w + rest) == [w] + Words(rest)
    ensures Joined(w + rest) == w + (if rest == [] then "" else "-" + Joined(rest))
  {
    hide Words, Join;
    var s := w + rest;
    JoinCons(w, Words(rest));
    AllJunk(rest);
    if rest == [] {
      assert s == w;
    } else {
      assert s[|s| - 1] == rest[|rest| - 1];
      if Words(rest) != [] {
        Associate(w, Join(Words(rest), '-'), if IsAlnum(rest[|rest| - 1]) then "" else "-");
      }
    }
  }

  lemma Associate(w: string, j: string, tail: string)
    ensures (w + "-" + j) + tail == w + ("-" + (j + tail))
  {
  }

  /** Without words there is no alphanumeric. */
  lemma {:induction false} AllJunk(s: string)
    ensures Words(s) == [] <==> forall i :: 0 <= i < |s| ==> !IsAlnum(s[i])
  {
    if s != [] && !IsAlnum(s[0]) {
      AllJunk(s[1..]);
      assert forall i :: 1 <= i < |s| ==> s[i] == s[1..][i - 1];
    }
  }

  lemma TrimDashesAround(s: string)
    requires s == [] || (s[0] != '-' && s[|s| - 1] != '-')
    ensures TrimDashes(s) == s && TrimDashes("-" + s) == s && TrimDashes(s + "-") == s && TrimDashes("-" + s + "-") == s
  {
    assert ("-" + s)[1..] == s && ("-" + s + "-")[1..] == s + "-" && (s + "-")[..|s|] == s;
    assert s == [] ==> TrimLeft("-", '-') == "" && s + "-" == "-";
    assert s != [] ==> (s + "-")[0] == s[0];
  }

  lemma CollapseStart(s: string)
    requires s != []
    ensures Collapse(s, false) == (if IsAlnum(s[0]) then "" else "-") + Collapse(s, true)
  {
  }

  /**
    Normalization keeps exactly the maximal runs of letters and digits, in lower case, joined by
    single dashes; it fails exactly when there is none.
   */
  lemma NormalizeIsJoin(input: string)
    ensures var ws := Words(ToLower(input));
            Normalize(input) ==
            if input == [] then Err(EmptyInput) else if ws == [] then Err(NormalizedEmpty) else Ok(Join(ws, '-'))
  {
    hide Collapse, Words, IsAlnum, TrimDashes, Join;
    var s := ToLower(input);
    if s != [] {
      var j := Join(Words(s), '-');
      CollapseIsJoin(s);
      var before, after := if IsAlnum(s[0]) then "" else "-", if IsAlnum(s[|s| - 1]) then "" else "-";
      CollapseStart(s);
      if Words(s) != [] {
        JoinedEnds(Words(s));
        assert Collapse(s, false) == before + j + after;
        TrimDashesAround(j);
        assert "" + j == j && j + "" == j;
      } else {
        TrimDashesAround("");
      }
    }
  }

  predicate HasAlnum(input: string) {
    exists i :: 0 <= i < |input| && IsAlnum(LowerChar(input[i]))
  }

  lemma NormalizeSucceeds(input: string)
    ensures Normalize(input).Ok? <==> HasAlnum(input)
  {
    NormalizeIsJoin(input);
    AllJunk(ToLower(input));
  }

  lemma {:induction false} WordsJoin(ws: seq<string>)
    requires forall i :: 0 <= i < |ws| ==> IsWord(ws[i])
    ensures Words(Join(ws, '-')) == ws
  {
    if |ws| > 0 {
      var w, j := ws[0], Join(ws, '-');
      WordsJoin(ws[1..]);
      assert j[0] == w[0];
      RunOf(w, j[|w|..]);
      assert j == w + j[|w|..];
      if |ws| == 1 {
        assert j[|w|..] == [];
      } else {
        assert j[|w|..][0] == '-' && j[|w|..][1..] == Join(ws[1..], '-');
      }
    }
  }

  lemma {:induction false} RunOf(w: string, rest: string)
    requires forall i :: 0 <= i < |w| ==> IsAlnum(w[i])
    requires rest == [] || !IsAlnum(rest[0])
    ensures RunLength(w + rest) == |w|
  {
    if w != [] {
      assert (w + rest)[1..] == w[1..] + rest;
      RunOf(w[1..], rest);
    } else {
      assert w + rest == rest;
    }
  }

  /** Normalizing twice is normalizing once. */
  lemma NormalizeIdempotent(input: string)
    requires Normalize(input).Ok?
    ensures Normalize(Normalize(input).value) == Normalize(input)
  {
    var ws := Words(ToLower(input));
    NormalizeIsJoin(input);
    JoinedEnds(ws);
    var j := Join(ws, '-');
    assert ToLower(j) == j;
    WordsJoin(ws);
    NormalizeIsJoin(j);
  }

  // ---------- Bounded slugs ----------

  predicate IsHash(x: string) {
    |x| == HASH_LEN && forall i :: 0 <= i < |x| ==> 'a' <= x[i] <= 'f' || '0' <= x[i] <= '9'
  }

  function ZeroHash(s: string): string {
    "00000000"
  }

  /** The short hash: any function from text to eight hexadecimal digits. */
  type ShortHash = h: string -> string | forall s :: IsHash(h(s)) witness ZeroHash

  function TruncateWithHash(h: ShortHash, base: string, hashInput: string, maxLen: int): string
    requires maxLen > 0
  {
    var hash := h(hashInput);
    assert IsHash(hash);
    var cut := maxLen - HASH_LEN - 1;
    if maxLen <= HASH_LEN then hash[..maxLen]
    else if cut <= 0 then hash
    else base[..if cut > |base| then |base| else cut] + "-" + hash
  }

  /** Whether slugWithHash replaces the normalized text: it is too long, or normalizing changed more than case. */
  predicate Hashed(input: string, normalized: string, maxLen: int) {
    |normalized| > maxLen || normalized != ToLower(input)
  }

  function SlugWithHash(h: ShortHash, input: string, maxLen: int): Result<string, NameError> {
    if maxLen <= 0 then Err(BadMaxLength)
    else
      match Normalize(input)
      case Err(e) => Err(e)
      case Ok(n) =>
        var slug := if Hashed(input, n, maxLen) then TruncateWithHash(h, n, input, maxLen) else n;
        if !IsLabel(slug) then Err(InvalidLabel)
        else if |slug| > maxLen then Err(TooLong)
        else Ok(slug)
  }

  /** The shape of normalized text: label characters, alphanumeric at both ends. */
  predicate Shaped(n: string) {
    n != [] && IsAlnum(n[0]) && IsAlnum(n[|n| - 1]) && forall i :: 0 <= i < |n| ==> IsLabelChar(n[i])
  }

  lemma NormalizedShape(input: string)
    requires Normalize(input).Ok?
    ensures Shaped(Normalize(input).value)
  {
    NormalizeIsJoin(input);
    JoinedEnds(Words(ToLower(input)));
  }

  lemma ShapedLabel(n: string)
    requires Shaped(n)
    ensures |n| <= LABEL_MAX_LEN ==> IsLabel(n)
  {
  }

  /** A hash, or what a short bound leaves of it, is a label. */
  lemma HashIsLabel(hash: string, n: nat)
    requires IsHash(hash) && 1 <= n <= HASH_LEN
    ensures IsLabel(hash[..n])
  {
  }

  lemma HeadWithHash(head: string, hash: string)
    requires IsHash(hash) && 1 <= |head| <= LABEL_MAX_LEN - HASH_LEN - 1
    requires IsAlnum(head[0]) && forall i :: 0 <= i < |head| ==> IsLabelChar(head[i])
    ensures var t := head + "-" + hash; IsLabel(t) && t[|t| - HASH_LEN..] == hash
  {
    var t := head + "-" + hash;
    assert t[0] == head[0] && t[|t| - 1] == hash[HASH_LEN - 1];
    assert t[|t| - HASH_LEN..] == hash;
    forall i | 0 <= i < |t| ensures IsLabelChar(t[i]) {
      assert t[i] == if i < |head| then head[i] else if i == |head| then '-' else hash[i - |head| - 1];
    }
  }

  lemma TruncateShape(h: ShortHash, base: string, input: string, maxLen: int)
    requires 1 <= maxLen <= LABEL_MAX_LEN
    requires Shaped(base)
    ensures var t := TruncateWithHash(h, base, input, maxLen);
            IsLabel(t) && |t| <= maxLen && (maxLen >= HASH_LEN ==> |t| >= HASH_LEN && t[|t| - HASH_LEN..] == h(input))
  {
    hide IsLabel, IsAlnum, IsLabelChar;
    var hash := h(input);
    assert IsHash(hash);
    var cut := maxLen - HASH_LEN - 1;
    if cut > 0 {
      HeadWithHash(base[..if cut > |base| then |base| else cut], hash);
    } else {
      HashIsLabel(hash, if maxLen <= HASH_LEN then maxLen else HASH_LEN);
      assert hash[..HASH_LEN] == hash;
    }
  }

  /** `t` is what fits of `base`, a dash and the whole hash; or what fits of the hash alone. */
  ghost predicate Abbreviates(t: string, base: string, hash: string, maxLen: int)
    requires |hash| == HASH_LEN
  {
    if maxLen <= HASH_LEN then |t| == maxLen && t <= hash
    else if maxLen == HASH_LEN + 1 then t == hash
    else
      && |t| == (if |base| + 1 + HASH_LEN < maxLen then |base| + 1 + HASH_LEN else maxLen)
      && t[|t| - HASH_LEN..] == hash && t[|t| - HASH_LEN - 1] == '-' && t[..|t| - HASH_LEN - 1] <= base
  }

  lemma TruncateExactly(h: ShortHash, base: string, input: string, maxLen: int)
    requires maxLen > 0
    ensures |h(input)| == HASH_LEN && Abbreviates(TruncateWithHash(h, base, input, maxLen), base, h(input), maxLen)
  {
    assert IsHash(h(input));
  }

  /**
    For every bound that fits a label and every input with a letter or digit: an input that is
    normalized up to case and fits is its own slug, in lower case; any other gets its normalized text
    abbreviated with the hash of the input.
   */
  lemma SlugExactly(h: ShortHash, input: string, maxLen: int)
    requires 1 <= maxLen <= LABEL_MAX_LEN && Normalize(input).Ok?
    ensures SlugWithHash(h, input, maxLen).Ok? && |h(input)| == HASH_LEN
    ensures var n, slug := Normalize(input).value, SlugWithHash(h, input, maxLen).value;
            if n == ToLower(input) && |n| <= maxLen then slug == ToLower(input) else Abbreviates(slug, n, h(input), maxLen)
  {
    hide Normalize, TruncateWithHash, IsLabel, Abbreviates;
    var n := Normalize(input).value;
    SlugIsLabel(h, input, n, maxLen);
    TruncateExactly(h, n, input, maxLen);
  }

  /** What slugWithHash chooses for the normalized text passes its checks. */
  lemma SlugIsLabel(h: ShortHash, input: string, n: string, maxLen: int)
    requires 1 <= maxLen <= LABEL_MAX_LEN && Normalize(input) == Ok(n)
    ensures var slug := if Hashed(input, n, maxLen) then TruncateWithHash(h, n, input, maxLen) else n;
            IsLabel(slug) && |slug| <= maxLen
  {
    hide Normalize, TruncateWithHash, IsLabel, Shaped;
    NormalizedShape(input);
    TruncateShape(h, n, input, maxLen);
    ShapedLabel(n);
  }

  /**
    With a bound that fits a label, a slug exists for exactly the inputs that have a letter or
    digit, and it is a valid label within the bound.
   */
  lemma SlugTotal(h: ShortHash, input: string, maxLen: int)
    requires 1 <= maxLen <= 63
    ensures SlugWithHash(h, input, maxLen).Ok? <==> HasAlnum(input)
    ensures SlugWithHash(h, input, maxLen).Ok? ==>
              var slug := SlugWithHash(h, input, maxLen).value; IsLabel(slug) && |slug| <= maxLen
  {
    hide Normalize, TruncateWithHash, IsLabel, HasAlnum, Shaped, Hashed;
    NormalizeSucceeds(input);
    if Normalize(input).Ok? {
      SlugIsLabel(h, input, Normalize(input).value, maxLen);
    }
  }

  /** With room for it, the slug of a hashed input ends with the hash. */
  lemma HashedSlug(h: ShortHash, input: string, maxLen: int)
    requires HASH_LEN <= maxLen <= LABEL_MAX_LEN
    requires Normalize(input).Ok? && Hashed(input, Normalize(input).value, maxLen)
    ensures var slug := SlugWithHash(h, input, maxLen);
            slug.Ok? && |slug.value| >= HASH_LEN && slug.value[|slug.value| - HASH_LEN..] == h(input)
  {
    hide Normalize, TruncateWithHash, IsLabel, Shaped, Hashed;
    var n := Normalize(input).value;
    NormalizedShape(input);
    TruncateShape(h, n, input, maxLen);
  }

  /** With room for the whole hash, two hashed inputs get the same slug only if their hashes agree. */
  lemma HashedCollision(h: ShortHash, a: string, b: string, maxLen: int)
    requires HASH_LEN <= maxLen <= LABEL_MAX_LEN
    requires Normalize(a).Ok? && Hashed(a, Normalize(a).value, maxLen)
    requires Normalize(b).Ok? && Hashed(b, Normalize(b).value, maxLen)
    requires SlugWithHash(h, a, maxLen) == SlugWithHash(h, b, maxLen)
    ensures h(a) == h(b)
  {
    hide Normalize, SlugWithHash, Hashed;
    HashedSlug(h, a, maxLen);
    HashedSlug(h, b, maxLen);
  }

  /** Two inputs kept as they are get the same slug only if they differ at most in case. */
  lemma PlainCollision(h: ShortHash, a: string, b: string, maxLen: int)
    requires 1 <= maxLen <= LABEL_MAX_LEN
    requires Normalize(a).Ok? && !Hashed(a, Normalize(a).value, maxLen)
    requires Normalize(b).Ok? && !Hashed(b, Normalize(b).value, maxLen)
    requires SlugWithHash(h, a, maxLen) == SlugWithHash(h, b, maxLen)
    ensures ToLower(a) == ToLower(b)
  {
    hide Normalize, TruncateWithHash;
    SlugTotal(h, a, maxLen);
    NormalizeSucceeds(a);
  }
}
