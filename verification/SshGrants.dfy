/** SSH key grants carried in one internal HTTP header. */
module SshGrants {
  import opened Common
  import opened Text

  datatype Grant = Grant(teamID: string, userID: string)

  // ---------- Encoding ----------

  function Trim(g: Grant): Grant {
    Grant(TrimSpace(g.teamID), TrimSpace(g.userID))
  }

  predicate Blank(g: Grant) {
    TrimSpace(g.teamID) == "" || TrimSpace(g.userID) == ""
  }

  function Entry(g: Grant): string {
    g.teamID + "=" + g.userID
  }

  /** The grants that count: trimmed, without those missing a team or a user. */
  function Clean(gs: seq<Grant>): seq<Grant> {
    if gs == [] then []
    else
      var g := gs[|gs| - 1];
      Clean(gs[..|gs| - 1]) + (if Blank(g) then [] else [Trim(g)])
  }

  /** A grant with both parts, and no white space around them. */
  predicate Whole(g: Grant) {
    g.teamID != "" && g.userID != "" && Trim(g) == g
  }

  lemma {:induction false} CleanWhole(gs: seq<Grant>)
    ensures forall i :: 0 <= i < |Clean(gs)| ==> Whole(Clean(gs)[i])
  {
    hide TrimSpace;
    if gs != [] {
      var g := gs[|gs| - 1];
      CleanWhole(gs[..|gs| - 1]);
      TrimSpaceTrims(g.teamID);
      TrimSpaceTrims(TrimSpace(g.teamID));
      TrimSpaceTrims(g.userID);
      TrimSpaceTrims(TrimSpace(g.userID));
    }
  }

  /** The grants that count are exactly the trimmed ones of which neither part is blank. */
  lemma {:induction false} CleanExactly(gs: seq<Grant>, g: Grant)
    ensures g in Clean(gs) <==>
            exists i :: 0 <= i < |gs| && g == Grant(TrimSpace(gs[i].teamID), TrimSpace(gs[i].userID)) && g.teamID != "" && g.userID != ""
  {
    hide TrimSpace;
    if gs != [] {
      var before := gs[..|gs| - 1];
      CleanExactly(before, g);
      assert forall i :: 0 <= i < |before| ==> before[i] == gs[i];
    }
  }

  /** `s` without later duplicates. */
  function Distinct<T(==)>(s: seq<T>): (r: seq<T>)
    ensures forall x <- r :: x in s
    ensures forall x <- s :: x in r
  {
    if s == [] then []
    else
      var before, x := Distinct(s[..|s| - 1]), s[|s| - 1];
      assert s == s[..|s| - 1] + [x];
      if x in before then before else before + [x]
  }

  lemma {:induction false} DistinctOnce<T>(s: seq<T>, i: nat, j: nat)
    requires i < j < |Distinct(s)|
    ensures Distinct(s)[i] != Distinct(s)[j]
  {
    var before := s[..|s| - 1];
    if j < |Distinct(before)| {
      DistinctOnce(before, i, j);
    }
  }

  /** What comes first without duplicates came first: some occurrence precedes every one of the other. */
  lemma {:induction false} DistinctInOrder<T>(s: seq<T>, i: nat, j: nat) returns (a: nat)
    requires i < j < |Distinct(s)|
    ensures a < |s| && s[a] == Distinct(s)[i] && Distinct(s)[j] !in s[..a + 1]
  {
    var before := s[..|s| - 1];
    assert s == before + [s[|s| - 1]];
    DistinctSnoc(before, s[|s| - 1]);
    if j < |Distinct(before)| {
      a := DistinctInOrder(before, i, j);
      assert before[..a + 1] == s[..a + 1];
    } else {
      assert Distinct(s)[i] == Distinct(before)[i] && Distinct(before)[i] in Distinct(before);
      a :| 0 <= a < |before| && before[a] == Distinct(before)[i];
      assert forall x <- s[..a + 1] :: x in before;
    }
  }

  function Entries(gs: seq<Grant>): (r: seq<string>)
    ensures |r| == |gs| && forall i :: 0 <= i < |gs| ==> r[i] == Entry(gs[i])
  {
    seq(|gs|, i requires 0 <= i < |gs| => Entry(gs[i]))
  }

  function Encoded(gs: seq<Grant>): string {
    Join(Distinct(Entries(Clean(gs))), ',')
  }

  method EncodeAuthorizedGrants(grants: seq<Grant>) returns (raw: string)
    ensures raw == Encoded(grants)
  {
    hide Trim, Blank, Entry, Join;
    var parts: seq<string> := [];
    var seen: set<string> := {};
    for i := 0 to |grants|
      invariant parts == Distinct(Entries(Clean(grants[..i])))
      invariant forall p :: p in seen <==> p in parts
    {
      CleanStep(grants, i);
      var grant := Trim(grants[i]);
      if Blank(grants[i]) {
        continue;
      }
      var encoded := Entry(grant);
      if encoded in seen {
        continue;
      }
      seen := seen + {encoded};
      parts := parts + [encoded];
    }
    assert grants[..|grants|] == grants;
    raw := Join(parts, ',');
  }

  lemma CleanStep(gs: seq<Grant>, i: nat)
    requires i < |gs|
    ensures var before := Distinct(Entries(Clean(gs[..i])));
            var text := Entry(Trim(gs[i]));
            Distinct(Entries(Clean(gs[..i + 1]))) == if Blank(gs[i]) || text in before then before else before + [text]
  {
    hide Trim, Blank, Entry;
    var c := Clean(gs[..i]);
    assert gs[..i + 1][..i] == gs[..i];
    if Blank(gs[i]) {
      assert c + [] == c;
    } else {
      assert Entries(c + [Trim(gs[i])]) == Entries(c) + [Entry(Trim(gs[i]))];
      DistinctSnoc(Entries(c), Entry(Trim(gs[i])));
    }
  }

  lemma DistinctSnoc<T>(s: seq<T>, x: T)
    ensures Distinct(s + [x]) == if x in Distinct(s) then Distinct(s) else Distinct(s) + [x]
  {
    assert (s + [x])[..|s|] == s;
  }

  // ---------- Parsing ----------

  /** Splits at the first `sep`, if there is one. */
  function Cut(s: string, sep: char): Option<(string, string)> {
    if s == [] then None
    else if s[0] == sep then Some(("", s[1..]))
    else match Cut(s[1..], sep)
         case None => None
         case Some((before, after)) => Some(([s[0]] + before, after))
  }

  function ParseField(field: string): Option<Grant> {
    match Cut(TrimSpace(field), '=')
    case None => None
    case Some((team, user)) =>
      var g := Grant(TrimSpace(team), TrimSpace(user));
      if g.teamID == "" || g.userID == "" then None else Some(g)
  }

  function ParseFields(fields: seq<string>): seq<Grant> {
    if fields == [] then []
    else
      var before := ParseFields(fields[..|fields| - 1]);
      match ParseField(fields[|fields| - 1])
      case None => before
      case Some(g) => before + [g]
  }

  function Parsed(raw: string): seq<Grant> {
    ParseFields(Split(raw, ','))
  }

  method ParseAuthorizedGrants(raw: string) returns (grants: seq<Grant>)
    ensures grants == Parsed(raw)
  {
    hide ParseField, Split;
    var fields := Split(raw, ',');
    grants := [];
    for i := 0 to |fields|
      invariant grants == ParseFields(fields[..i])
    {
      assert fields[..i + 1][..i] == fields[..i];
      var g := ParseField(fields[i]);
      if g.None? {
        continue;
      }
      grants := grants + [g.value];
    }
    assert fields[..|fields|] == fields;
  }

  lemma {:induction false} CutFinds(a: string, b: string, sep: char)
    requires sep !in a
    ensures Cut(a + [sep] + b, sep) == Some((a, b))
  {
    var s := a + [sep] + b;
    if a == [] {
      assert s[1..] == b;
    } else {
      assert s[1..] == a[1..] + [sep] + b && s[0] == a[0];
      CutFinds(a[1..], b, sep);
      assert [a[0]] + a[1..] == a;
    }
  }

  lemma {:induction false} CutPieces(s: string, sep: char)
    ensures Cut(s, sep).Some? ==>
              var (a, b) := Cut(s, sep).value; sep !in a && (forall c <- a :: c in s) && (forall c <- b :: c in s)
  {
    if s != [] && s[0] != sep {
      CutPieces(s[1..], sep);
    }
  }

  /** A field is a grant exactly when, trimmed, it has an equals sign with a part that is not blank on each side of the first. */
  lemma ParseFieldExactly(field: string, a: string, b: string)
    requires '=' !in a && TrimSpace(field) == a + "=" + b
    ensures ParseField(field) ==
            if TrimSpace(a) == "" || TrimSpace(b) == "" then None else Some(Grant(TrimSpace(a), TrimSpace(b)))
  {
    hide TrimSpace, Cut;
    assert a + "=" + b == a + ['='] + b;
    CutFinds(a, b, '=');
  }

  lemma NoFieldWithoutEquals(field: string)
    requires '=' !in TrimSpace(field)
    ensures ParseField(field) == None
  {
    hide TrimSpace, Cut;
    CutMisses(TrimSpace(field), '=');
  }

  lemma {:induction false} CutMisses(s: string, sep: char)
    requires sep !in s
    ensures Cut(s, sep) == None
  {
    if s != [] {
      CutMisses(s[1..], sep);
    }
  }

  // ---------- The round trip ----------

  /** What the header format cannot carry: a comma anywhere, or an equals sign in a team. */
  predicate Carried(g: Grant) {
    ',' !in g.teamID && '=' !in g.teamID && ',' !in g.userID
  }

  ghost predicate AllCarried(gs: seq<Grant>) {
    forall i :: 0 <= i < |gs| ==> Carried(gs[i])
  }

  lemma FieldRoundTrip(g: Grant)
    requires Whole(g) && Carried(g)
    ensures ParseField(Entry(g)) == Some(g) && ',' !in Entry(g)
  {
    hide TrimSpace, Cut;
    TrimSpaceTrims(g.teamID);
    TrimSpaceTrims(g.userID);
    var t := Entry(g);
    assert t[0] == g.teamID[0] && t[|t| - 1] == g.userID[|g.userID| - 1];
    TrimSpaceTrims(t);
    assert t == g.teamID + ['='] + g.userID;
    CutFinds(g.teamID, g.userID, '=');
  }

  /** Parsing a field never yields what the format cannot carry. */
  lemma ParsedIsCarried(field: string)
    requires ',' !in field && ParseField(field).Some?
    ensures Carried(ParseField(field).value)
  {
    hide TrimSpace, Cut;
    var s := TrimSpace(field);
    TrimSpaceTrims(field);
    CutPieces(s, '=');
    var (a, b) := Cut(s, '=').value;
    TrimSpaceTrims(a);
    TrimSpaceTrims(b);
  }

  lemma {:induction false} AllParsedCarried(fields: seq<string>)
    requires forall i :: 0 <= i < |fields| ==> ',' !in fields[i]
    ensures AllCarried(ParseFields(fields))
  {
    hide ParseField, Carried;
    if fields != [] {
      AllParsedCarried(fields[..|fields| - 1]);
      if ParseField(fields[|fields| - 1]).Some? {
        ParsedIsCarried(fields[|fields| - 1]);
      }
    }
  }

  /** Distinct texts parse back to the distinct grants. */
  lemma {:induction false} EntriesRoundTrip(gs: seq<Grant>)
    requires forall i :: 0 <= i < |gs| ==> Whole(gs[i]) && Carried(gs[i])
    ensures ParseFields(Distinct(Entries(gs))) == Distinct(gs)
  {
    hide ParseField, ParseFields, Distinct, Whole, Carried, Entry;
    if gs == [] {
      NoEntries();
    } else {
      var before, g := gs[..|gs| - 1], gs[|gs| - 1];
      EntriesRoundTrip(before);
      FieldRoundTrip(g);
      assert Entries(gs) == Entries(before) + [Entry(g)] && gs == before + [g];
      DistinctSnoc(Entries(before), Entry(g));
      DistinctSnoc(before, g);
      SameEntry(before, g);
      ParseSnoc(Distinct(Entries(before)), Entry(g));
    }
  }

  lemma NoEntries()
    ensures ParseFields(Distinct(Entries([]))) == Distinct<Grant>([])
  {
  }

  lemma EntriesWithoutComma(gs: seq<Grant>)
    requires forall i :: 0 <= i < |gs| ==> Whole(gs[i]) && Carried(gs[i])
    ensures forall i :: 0 <= i < |Distinct(Entries(gs))| ==> ',' !in Distinct(Entries(gs))[i]
  {
    hide Whole, Carried, Entry;
    var texts := Distinct(Entries(gs));
    forall i | 0 <= i < |texts| ensures ',' !in texts[i] {
      assert texts[i] in Entries(gs);
      var k :| 0 <= k < |gs| && Entries(gs)[k] == texts[i];
      FieldRoundTrip(gs[k]);
    }
  }

  lemma ParseSnoc(fields: seq<string>, field: string)
    ensures ParseFields(fields + [field]) ==
            ParseFields(fields) + (if ParseField(field).Some? then [ParseField(field).value] else [])
  {
    assert (fields + [field])[..|fields|] == fields;
  }

  /** Among carried grants, one has a text already seen exactly when it has itself been seen. */
  lemma SameEntry(gs: seq<Grant>, g: Grant)
    requires forall i :: 0 <= i < |gs| ==> Whole(gs[i]) && Carried(gs[i])
    requires Whole(g) && Carried(g)
    ensures Entry(g) in Distinct(Entries(gs)) <==> g in Distinct(gs)
  {
    hide ParseField, Whole, Carried, Entry;
    FieldRoundTrip(g);
    if Entry(g) in Entries(gs) {
      var i :| 0 <= i < |gs| && Entries(gs)[i] == Entry(g);
      FieldRoundTrip(gs[i]);
      assert gs[i] == g;
    }
    if g in gs {
      var i :| 0 <= i < |gs| && gs[i] == g;
      assert Entries(gs)[i] == Entry(g);
    }
  }

  /**
    Parsing the encoded header gives back the trimmed, non-blank grants without later duplicates
    if and only if each of them has no comma and no equals sign in its team.
   */
  lemma HeaderRoundTrip(gs: seq<Grant>)
    ensures Parsed(Encoded(gs)) == Distinct(Clean(gs)) <==> AllCarried(Clean(gs))
  {
    hide Whole, Carried, Clean, Split, Join, ParseField, Entry;
    var raw := Encoded(gs);
    SplitPieces(raw, ',');
    AllParsedCarried(Split(raw, ','));
    if Parsed(raw) == Distinct(Clean(gs)) {
      forall i | 0 <= i < |Clean(gs)| ensures Carried(Clean(gs)[i]) {
        assert Clean(gs)[i] in Parsed(raw);
      }
    }
    if AllCarried(Clean(gs)) {
      CleanWhole(gs);
      EntriesRoundTrip(Clean(gs));
      EntriesWithoutComma(Clean(gs));
      SplitEncoded(Distinct(Entries(Clean(gs))));
    }
  }

  /** The grant whose user, after a comma, reads as another grant. */
  function WithComma(g: Grant, h: Grant): Grant {
    Grant(g.teamID, g.userID + "," + Entry(h))
  }

  /** The header splits it into two, for all grants it can carry: for instance a=x,b=y. */
  lemma CommaSplitsGrant(g: Grant, h: Grant)
    requires Whole(g) && Carried(g) && Whole(h) && Carried(h)
    ensures Clean([WithComma(g, h)]) == [WithComma(g, h)]
    ensures Parsed(Encoded([WithComma(g, h)])) == [g, h]
  {
    hide Whole, Carried, TrimSpace, ParseField, Split, Entry, WithComma;
    CommaIsWhole(g, h);
    OneEntry(WithComma(g, h));
    CommaEntry(g, h);
    FieldRoundTrip(g);
    FieldRoundTrip(h);
    SplitConcat(Entry(g), Entry(h), ',');
    SplitWhole(Entry(g), ',');
    SplitWhole(Entry(h), ',');
    ParseSnoc([], Entry(g));
    ParseSnoc([Entry(g)], Entry(h));
    assert [] + [Entry(g)] == [Entry(g)];
  }

  lemma CommaIsWhole(g: Grant, h: Grant)
    requires Whole(g) && Whole(h)
    ensures Whole(WithComma(g, h))
  {
    hide TrimSpace;
    var user := g.userID + "," + Entry(h);
    TrimSpaceTrims(g.userID);
    TrimSpaceTrims(h.userID);
    assert user[0] == g.userID[0] && user[|user| - 1] == h.userID[|h.userID| - 1];
    TrimSpaceTrims(user);
  }

  lemma CommaEntry(g: Grant, h: Grant)
    ensures Entry(WithComma(g, h)) == Entry(g) + [','] + Entry(h)
  {
  }

  /** A whole grant alone is encoded as its text. */
  lemma OneEntry(g: Grant)
    requires Whole(g)
    ensures Clean([g]) == [g] && Encoded([g]) == Entry(g)
  {
    hide TrimSpace, Entry;
    assert [g][..0] == [] && Clean([g]) == [Trim(g)];
    DistinctSnoc([], Entry(g));
    assert Entries([g]) == [] + [Entry(g)];
    assert Distinct(Entries([g])) == [Entry(g)];
  }

  lemma SplitEncoded(parts: seq<string>)
    requires forall i :: 0 <= i < |parts| ==> ',' !in parts[i]
    ensures ParseFields(Split(Join(parts, ','), ',')) == ParseFields(parts)
  {
    hide TrimSpace;
    if parts == [] {
      assert Split("", ',') == [""] && [""][..0] == [];
      TrimSpaceTrims("");
    } else {
      SplitJoin(parts, ',');
    }
  }

  // ---------- Looking up a team ----------

  /** The user of the first grant for the team; not found when that user is blank. */
  function UserFor(gs: seq<Grant>, teamID: string): (string, bool) {
    if TrimSpace(teamID) == "" then ("", false) else FirstUser(gs, TrimSpace(teamID))
  }

  function FirstUser(gs: seq<Grant>, team: string): (string, bool) {
    if gs == [] then ("", false)
    else if TrimSpace(gs[0].teamID) == team then (TrimSpace(gs[0].userID), TrimSpace(gs[0].userID) != "")
    else FirstUser(gs[1..], team)
  }

  method UserIDForTeam(grants: seq<Grant>, teamID: string) returns (user: string, found: bool)
    ensures (user, found) == UserFor(grants, teamID)
  {
    hide TrimSpace;
    var team := TrimSpace(teamID);
    if team == "" {
      return "", false;
    }
    for i := 0 to |grants|
      invariant FirstUser(grants[i..], team) == FirstUser(grants, team)
    {
      if TrimSpace(grants[i].teamID) == team {
        user := TrimSpace(grants[i].userID);
        return user, user != "";
      }
      assert grants[i..][1..] == grants[i + 1..];
    }
    user, found := "", false;
  }

  /** The user found is that of the first grant for the team, if it has one; and exactly then. */
  lemma UserForExactly(gs: seq<Grant>, teamID: string)
    ensures var team := TrimSpace(teamID);
            UserFor(gs, teamID).1 <==>
            && team != ""
            && exists i :: 0 <= i < |gs| && TrimSpace(gs[i].teamID) == team && TrimSpace(gs[i].userID) != ""
                           && forall k :: 0 <= k < i ==> TrimSpace(gs[k].teamID) != team
    ensures !UserFor(gs, teamID).1 ==> UserFor(gs, teamID).0 == ""
    ensures forall i :: 0 <= i < |gs| && TrimSpace(teamID) != "" && TrimSpace(gs[i].teamID) == TrimSpace(teamID)
                        && (forall k :: 0 <= k < i ==> TrimSpace(gs[k].teamID) != TrimSpace(teamID)) ==>
                        UserFor(gs, teamID).0 == TrimSpace(gs[i].userID)
  {
    hide TrimSpace, FirstUser;
    var team := TrimSpace(teamID);
    if team != "" {
      if HasTeam(gs, team) {
        var i := FirstIndex(gs, team);
        FirstUserAt(gs, team, i);
      } else {
        FirstUserNone(gs, team);
      }
    }
  }

  lemma {:induction false} FirstUserAt(gs: seq<Grant>, team: string, i: nat)
    requires i < |gs| && TrimSpace(gs[i].teamID) == team && forall k :: 0 <= k < i ==> TrimSpace(gs[k].teamID) != team
    ensures FirstUser(gs, team) == (TrimSpace(gs[i].userID), TrimSpace(gs[i].userID) != "")
  {
    hide TrimSpace;
    if i > 0 {
      assert gs[1..][i - 1] == gs[i];
      FirstUserAt(gs[1..], team, i - 1);
    }
  }

  /** A grant for the team with a blank user comes before any with a user, and one with a user follows. */
  ghost predicate Shadowed(gs: seq<Grant>, team: string) {
    exists i, j :: 0 <= i < j < |gs|
      && TrimSpace(gs[i].teamID) == team && TrimSpace(gs[i].userID) == ""
      && TrimSpace(gs[j].teamID) == team && TrimSpace(gs[j].userID) != ""
      && forall k :: 0 <= k < i ==> TrimSpace(gs[k].teamID) != team
  }

  ghost predicate HasTeam(gs: seq<Grant>, team: string) {
    exists i :: 0 <= i < |gs| && TrimSpace(gs[i].teamID) == team
  }

  lemma {:induction false} FirstUserConcat(a: seq<Grant>, b: seq<Grant>, team: string)
    ensures FirstUser(a + b, team) == if HasTeam(a, team) then FirstUser(a, team) else FirstUser(b, team)
  {
    hide TrimSpace;
    if a == [] {
      assert a + b == b;
    } else {
      assert (a + b)[0] == a[0] && (a + b)[1..] == a[1..] + b;
      FirstUserConcat(a[1..], b, team);
      if HasTeam(a, team) && TrimSpace(a[0].teamID) != team {
        var i :| 0 <= i < |a| && TrimSpace(a[i].teamID) == team;
        assert a[1..][i - 1] == a[i];
      }
      if HasTeam(a[1..], team) {
        var i :| 0 <= i < |a[1..]| && TrimSpace(a[1..][i].teamID) == team;
        assert a[i + 1] == a[1..][i];
      }
    }
  }

  lemma {:induction false} FirstUserDistinct(gs: seq<Grant>, team: string)
    ensures FirstUser(Distinct(gs), team) == FirstUser(gs, team)
    ensures HasTeam(Distinct(gs), team) <==> HasTeam(gs, team)
  {
    hide TrimSpace, FirstUser;
    if gs != [] {
      var before, g := gs[..|gs| - 1], gs[|gs| - 1];
      assert gs == before + [g];
      DistinctSnoc(before, g);
      FirstUserDistinct(before, team);
      FirstUserConcat(before, [g], team);
      FirstUserConcat(Distinct(before), [g], team);
      HasTeamSnoc(before, g, team);
      HasTeamSnoc(Distinct(before), g, team);
      HasTeamSnoc([], g, team);
      assert [] + [g] == [g];
      FirstUserNone(before, team);
      FirstUserNone([g], team);
    }
  }

  lemma HasTeamSnoc(gs: seq<Grant>, g: Grant, team: string)
    ensures HasTeam(gs + [g], team) <==> HasTeam(gs, team) || TrimSpace(g.teamID) == team
    ensures g in gs && TrimSpace(g.teamID) == team ==> HasTeam(gs, team)
  {
    hide TrimSpace;
    if HasTeam(gs, team) {
      var i :| 0 <= i < |gs| && TrimSpace(gs[i].teamID) == team;
      assert (gs + [g])[i] == gs[i];
    }
    assert (gs + [g])[|gs|] == g;
  }

  lemma {:induction false} FirstUserNone(gs: seq<Grant>, team: string)
    ensures !HasTeam(gs, team) ==> FirstUser(gs, team) == ("", false)
  {
    hide TrimSpace;
    if gs != [] {
      FirstUserNone(gs[1..], team);
      if HasTeam(gs[1..], team) {
        var i :| 0 <= i < |gs[1..]| && TrimSpace(gs[1..][i].teamID) == team;
        assert gs[i + 1] == gs[1..][i];
      }
    }
  }

  lemma {:induction false} CleanConcat(a: seq<Grant>, b: seq<Grant>)
    ensures Clean(a + b) == Clean(a) + Clean(b)
  {
    hide Blank, Trim;
    if b == [] {
      assert a + b == a;
    } else {
      assert (a + b)[|a + b| - 1] == b[|b| - 1] && (a + b)[..|a + b| - 1] == a + b[..|b| - 1];
      CleanConcat(a, b[..|b| - 1]);
    }
  }

  /** Some grant for the team has a user. */
  ghost predicate HasUser(gs: seq<Grant>, team: string) {
    exists i :: 0 <= i < |gs| && TrimSpace(gs[i].teamID) == team && TrimSpace(gs[i].userID) != ""
  }

  lemma HasUserSnoc(gs: seq<Grant>, g: Grant, team: string)
    ensures HasUser(gs + [g], team) <==> HasUser(gs, team) || (TrimSpace(g.teamID) == team && TrimSpace(g.userID) != "")
  {
    hide TrimSpace;
    if HasUser(gs, team) {
      var i :| 0 <= i < |gs| && TrimSpace(gs[i].teamID) == team && TrimSpace(gs[i].userID) != "";
      assert (gs + [g])[i] == gs[i];
    }
    assert (gs + [g])[|gs|] == g;
  }

  /** Cleaning keeps a team exactly when some grant for it has a user. */
  lemma {:induction false} CleanTeams(gs: seq<Grant>, team: string)
    requires team != ""
    ensures HasTeam(Clean(gs), team) <==> HasUser(gs, team)
  {
    hide TrimSpace, HasTeam, HasUser;
    if gs == [] {
      EmptyTeams(team);
    } else {
      var before, g := gs[..|gs| - 1], gs[|gs| - 1];
      assert gs == before + [g];
      CleanTeams(before, team);
      HasUserSnoc(before, g, team);
      TrimSpaceTrims(g.teamID);
      TrimSpaceTrims(TrimSpace(g.teamID));
      if Blank(g) {
        assert Clean(gs) == Clean(before);
      } else {
        HasTeamSnoc(Clean(before), Trim(g), team);
      }
    }
  }

  lemma EmptyTeams(team: string)
    ensures !HasTeam([], team) && !HasUser([], team)
  {
  }

  /** What a lookup among whole grants finds is a user. */
  lemma {:induction false} WholeFound(gs: seq<Grant>, team: string)
    requires HasTeam(gs, team) && forall i :: 0 <= i < |gs| ==> Whole(gs[i])
    ensures FirstUser(gs, team).1
  {
    hide TrimSpace;
    if TrimSpace(gs[0].teamID) != team {
      var i :| 0 <= i < |gs| && TrimSpace(gs[i].teamID) == team;
      assert gs[1..][i - 1] == gs[i];
      WholeFound(gs[1..], team);
    }
  }

  /**
    Looking up a team gives the same answer before encoding and after parsing if and only if no
    grant for the team with a blank user comes first while a later one has a user.
   */
  lemma LookupSurvives(gs: seq<Grant>, teamID: string)
    requires AllCarried(Clean(gs))
    ensures UserFor(Parsed(Encoded(gs)), teamID) == UserFor(gs, teamID) <==>
              TrimSpace(teamID) == "" || !Shadowed(gs, TrimSpace(teamID))
  {
    hide TrimSpace, FirstUser, Clean, Encoded, Parsed, AllCarried, Shadowed;
    HeaderRoundTrip(gs);
    var team := TrimSpace(teamID);
    if team != "" {
      FirstUserDistinct(Clean(gs), team);
      CleanLookup(gs, team);
    }
  }

  /** A blank grant that hides a later one: no user before encoding, a user after parsing. */
  lemma BlankGrantHides()
    ensures var gs := [Grant("a", ""), Grant("a", "x")];
            UserFor(gs, "a") == ("", false) && UserFor(Parsed(Encoded(gs)), "a") == ("x", true)
  {
    hide TrimSpace, Clean, Encoded, Parsed, Distinct;
    var blank, g := Grant("a", ""), Grant("a", "x");
    TrimSpaceTrims("a");
    TrimSpaceTrims("x");
    TrimSpaceTrims("");
    SmallClean(blank, g);
    assert AllCarried([g]);
    HeaderRoundTrip([blank, g]);
    FirstUserDistinct([g], "a");
  }

  lemma SmallClean(blank: Grant, g: Grant)
    requires Blank(blank) && !Blank(g) && Trim(g) == g
    ensures Clean([blank, g]) == [g]
  {
    hide TrimSpace;
    assert [blank, g][..1] == [blank] && [blank][..0] == [];
    assert Clean([blank]) == [];
  }

  lemma CleanLookup(gs: seq<Grant>, team: string)
    requires team != ""
    ensures FirstUser(Clean(gs), team) == FirstUser(gs, team) <==> !Shadowed(gs, team)
  {
    hide TrimSpace, FirstUser, Clean, Blank;
    CleanTeams(gs, team);
    if !HasTeam(gs, team) {
      FirstUserNone(gs, team);
      FirstUserNone(Clean(gs), team);
    } else {
      var i := FirstIndex(gs, team);
      var a, g, b := gs[..i], gs[i], gs[i + 1..];
      assert gs == a + ([g] + b);
      CleanTeams(a, team);
      FirstUserConcat(a, [g] + b, team);
      CleanConcat(a, [g] + b);
      CleanConcat([g], b);
      FirstUserConcat(Clean(a), Clean([g]) + Clean(b), team);
      FirstUserConcat(Clean([g]), Clean(b), team);
      FirstUserConcat([g], b, team);
      assert [g][0] == g;
      SingleLookup(g, team);
      if TrimSpace(g.userID) == "" {
        BlankFirst(gs, team, i);
      }
    }
  }

  lemma {:induction false} FirstIndex(gs: seq<Grant>, team: string) returns (i: nat)
    requires HasTeam(gs, team)
    ensures i < |gs| && TrimSpace(gs[i].teamID) == team && forall k :: 0 <= k < i ==> TrimSpace(gs[k].teamID) != team
  {
    hide TrimSpace;
    i := 0;
    while TrimSpace(gs[i].teamID) != team
      invariant i < |gs| && forall k :: 0 <= k < i ==> TrimSpace(gs[k].teamID) != team
      decreases |gs| - i
    {
      i := i + 1;
    }
  }

  lemma SingleLookup(g: Grant, team: string)
    requires TrimSpace(g.teamID) == team && team != ""
    ensures FirstUser([g], team) == (TrimSpace(g.userID), TrimSpace(g.userID) != "")
    ensures if TrimSpace(g.userID) == "" then Clean([g]) == []
            else HasTeam(Clean([g]), team) && FirstUser(Clean([g]), team) == (TrimSpace(g.userID), true)
  {
    hide TrimSpace;
    TrimSpaceTrims(g.teamID);
    TrimSpaceTrims(TrimSpace(g.teamID));
    TrimSpaceTrims(g.userID);
    TrimSpaceTrims(TrimSpace(g.userID));
    assert Clean([g][..0]) == [];
    if TrimSpace(g.userID) != "" {
      assert Clean([g]) == [Trim(g)];
      assert TrimSpace(Clean([g])[0].teamID) == team;
    }
  }

  lemma BlankFirst(gs: seq<Grant>, team: string, i: nat)
    requires i < |gs| && TrimSpace(gs[i].teamID) == team && TrimSpace(gs[i].userID) == ""
    requires forall k :: 0 <= k < i ==> TrimSpace(gs[k].teamID) != team
    requires team != ""
    ensures FirstUser(Clean(gs[i + 1..]), team) == ("", false) <==> !Shadowed(gs, team)
  {
    hide TrimSpace, FirstUser, Clean, Whole;
    var b := gs[i + 1..];
    CleanTeams(b, team);
    CleanWhole(b);
    assert forall j :: 0 <= j < |b| ==> b[j] == gs[i + 1 + j];
    if HasTeam(Clean(b), team) {
      WholeFound(Clean(b), team);
      var j :| 0 <= j < |b| && TrimSpace(b[j].teamID) == team && TrimSpace(b[j].userID) != "";
      assert TrimSpace(gs[i + 1 + j].teamID) == team;
      assert Shadowed(gs, team);
    } else {
      FirstUserNone(Clean(b), team);
      assert !HasUser(b, team);
      assert forall j :: i < j < |gs| ==> gs[j] == b[j - i - 1];
    }
  }
}
