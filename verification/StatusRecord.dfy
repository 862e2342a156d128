/**
 * What the source check of the status formatter records, told from the formatter's text alone: where each line
 * stands, which lines, names and conditions it has before it, and which part of the document its text reads.
 */
module StatusRecord {
  import opened Options
  import opened StatusAliases

  // ---------- where the lines stand ----------

  /** A name that is declared, or that a loop runs over a list with. */
  datatype Naming = Naming(name: string, init: Expr, loop: bool)

  /** What comes before a line on the way to it. */
  datatype Way = Way(before: seq<Line>, names: seq<Naming>, conditions: seq<Expr>)

  datatype Spot = Spot(line: Line, pushed: bool, way: Way)

  /** The lines of a statement itself and of its blocks; those of its branches and loops are not on the way. */
  function Straight(s: Stmt): seq<Line>
    decreases s, 0
  {
    match s
    case Lines(elements) => elements
    case Push(line) => [line]
    case Block(body) => StraightAll(body)
    case _ => []
  }

  function StraightAll(ss: seq<Stmt>): seq<Line>
    decreases ss, 0
  {
    if ss == [] then [] else Straight(ss[0]) + StraightAll(ss[1..])
  }

  function Names(s: Stmt): seq<Naming> {
    if s.Declare? && s.init.Some? then [Naming(s.name, s.init.value, false)] else []
  }

  function Past(s: Stmt, way: Way): Way {
    way.(before := way.before + Straight(s), names := way.names + Names(s))
  }

  function Spots(s: Stmt, way: Way): seq<Spot>
    decreases s, 0
  {
    match s
    case Lines(elements) => seq(|elements|, i requires 0 <= i < |elements| => Spot(elements[i], false, way))
    case Push(line) => [Spot(line, true, way)]
    case Block(body) => SpotsAll(body, way)
    case If(cond, yes, no) =>
      var inner := way.(conditions := way.conditions + [cond]);
      Spots(yes, inner) + if no.Some? then Spots(no.value, inner) else []
    case ForOf(x, items, each) => Spots(each, way.(names := way.names + [Naming(x, items, true)]))
    case _ => []
  }

  function SpotsAll(ss: seq<Stmt>, way: Way): seq<Spot>
    decreases ss, 0
  {
    if ss == [] then [] else Spots(ss[0], way) + SpotsAll(ss[1..], Past(ss[0], way))
  }

  // ---------- labels ----------

  /** The heading of the nearest line, from the end, that has one. */
  ghost predicate Nearest(lines: seq<Line>, heading: Option<string>) {
    || (heading.None? && forall i | 0 <= i < |lines| :: lines[i].heading.None?)
    || (heading.Some?
        && exists i | 0 <= i < |lines| ::
             lines[i].heading == heading && forall j | i < j < |lines| :: lines[j].heading.None?)
  }

  /** A line stands under its own heading; a pushed line without one stands under the nearest one before it. */
  ghost predicate StandsUnder(spot: Spot, heading: string) {
    spot.line.heading == Some(heading)
    || (spot.line.heading.None? && spot.pushed && Nearest(spot.way.before, Some(heading)))
  }

  // ---------- names ----------

  /** The name an access starts from and the fields it goes through. */
  function Access(e: Expr): Option<(string, seq<string>)> {
    match e
    case Ident(x) => Some((x, []))
    case Wrapped(inner) => Access(inner)
    case Member(obj, field, _) =>
      (match Access(obj)
       case None => None
       case Some((x, fields)) => Some((x, fields + [field])))
    case _ => None
  }

  function Joined(path: string, fields: seq<string>): string
    decreases |fields|
  {
    if fields == [] then path else Joined(if path == "" then fields[0] else path + "." + fields[0], fields[1..])
  }

  /** The list a loop runs over, without casts and fallbacks. */
  function Core(e: Expr): Expr {
    match e
    case Wrapped(inner) => Core(inner)
    case Coalesce(left, _) => Core(left)
    case _ => e
  }

  /** What part of the document an expression names where these names are in scope. */
  function Denotes(e: Expr, names: seq<Naming>): Option<string>
    decreases |names|, 1
  {
    match Access(e)
    case None => None
    case Some((x, fields)) =>
      match Meaning(names, x)
      case None => None
      case Some(path) => Some(Joined(path, fields))
  }

  /** The last declaration of the name that names a part of the document; `status` is the document. */
  function Meaning(names: seq<Naming>, x: string): Option<string>
    decreases |names|, 0
  {
    if names == [] then if x == "status" then Some("") else None
    else
      var last, before := names[|names| - 1], names[..|names| - 1];
      var path := Denotes(if last.loop then Core(last.init) else last.init, before);
      if last.name == x && path.Some? then Some(if last.loop then path.value + "[]" else path.value)
      else Meaning(before, x)
  }

  // ---------- what a line reads ----------

  function Children(e: Expr): seq<Expr> {
    match e
    case Member(obj, _, _) => [obj]
    case Wrapped(inner) => [inner]
    case Coalesce(left, right) => [left, right]
    case Other(_, parts) => parts
    case _ => []
  }

  function PartAt(e: Expr, place: seq<nat>): Option<Expr>
    decreases |place|
  {
    if place == [] then Some(e)
    else if place[0] < |Children(e)| then PartAt(Children(e)[place[0]], place[1..])
    else None
  }

  predicate IsPath(e: Expr, names: seq<Naming>) {
    Denotes(e, names).Some? && Denotes(e, names) != Some("")
  }

  /** The part at this place names a part of the document, and no part around it does. */
  ghost predicate Outermost(e: Expr, names: seq<Naming>, place: seq<nat>, path: string) {
    && PartAt(e, place).Some? && Denotes(PartAt(e, place).value, names) == Some(path) && path != ""
    && forall k | 0 <= k < |place| :: PartAt(e, place[..k]).Some? ==> !IsPath(PartAt(e, place[..k]).value, names)
  }

  ghost predicate Reads(e: Expr, names: seq<Naming>, path: string) {
    exists place :: Outermost(e, names, place, path)
  }

  /** A line is recorded with what it reads, or, when that is nothing, with what the conditions around it read. */
  ghost predicate RecordedWith(spot: Spot, path: string) {
    || Reads(spot.line.shown, spot.way.names, path)
    || ((forall p: string :: !Reads(spot.line.shown, spot.way.names, p))
        && exists c :: c in spot.way.conditions && Reads(c, spot.way.names, path))
  }

  // ---------- the analysis finds this ----------

  function Alias(aliases: Aliases, x: string): Option<string> {
    if x in aliases then Some(aliases[x]) else None
  }

  ghost predicate Knows(aliases: Aliases, names: seq<Naming>) {
    forall x: string :: Alias(aliases, x) == Meaning(names, x)
  }

  lemma {:induction false} JoinedLast(path: string, fields: seq<string>, field: string)
    ensures Joined(path, fields + [field]) == Extend(Joined(path, fields), field)
    decreases |fields|
  {
    if fields != [] {
      assert (fields + [field])[1..] == fields[1..] + [field];
      JoinedLast(if path == "" then fields[0] else path + "." + fields[0], fields[1..], field);
    }
  }

  lemma {:induction false} ResolveDenotes(e: Expr, aliases: Aliases, names: seq<Naming>)
    requires Knows(aliases, names)
    ensures Resolve(e, aliases) == Denotes(e, names)
  {
    match e
    case Ident(x) => assert Alias(aliases, x) == Meaning(names, x);
    case Wrapped(inner) => ResolveDenotes(inner, aliases, names);
    case Member(obj, field, _) =>
      ResolveDenotes(obj, aliases, names);
      if Access(obj).Some? && Meaning(names, Access(obj).value.0).Some? {
        JoinedLast(Meaning(names, Access(obj).value.0).value, Access(obj).value.1, field);
      }
    case _ =>
  }

  lemma {:induction false} IterableDenotes(e: Expr, aliases: Aliases, names: seq<Naming>)
    requires Knows(aliases, names)
    ensures ResolveIterable(e, aliases) == Denotes(Core(e), names)
  {
    match e
    case Wrapped(inner) => IterableDenotes(inner, aliases, names);
    case Coalesce(left, _) => IterableDenotes(left, aliases, names);
    case _ => ResolveDenotes(e, aliases, names);
  }

  /** One more name in scope. */
  lemma KnowsOneMore(aliases: Aliases, names: seq<Naming>, naming: Naming)
    requires Knows(aliases, names)
    ensures var path := if naming.loop then ResolveIterable(naming.init, aliases) else Resolve(naming.init, aliases);
            Knows(if path.None? then aliases
                  else aliases[naming.name := if naming.loop then path.value + "[]" else path.value], names + [naming])
  {
    if naming.loop {
      IterableDenotes(naming.init, aliases, names);
    } else {
      ResolveDenotes(naming.init, aliases, names);
    }
    assert (names + [naming])[..|names + [naming]| - 1] == names;
    forall x: string
      ensures Meaning(names + [naming], x)
              == var path := Denotes(if naming.loop then Core(naming.init) else naming.init, names);
                 if naming.name == x && path.Some? then Some(if naming.loop then path.value + "[]" else path.value)
                 else Alias(aliases, x)
    {
      assert Alias(aliases, x) == Meaning(names, x);
    }
  }

  lemma NearestAfter(lines: seq<Line>, heading: Option<string>, line: Line)
    requires Nearest(lines, heading)
    ensures Nearest(lines + [line], if line.heading.Some? then line.heading else heading)
  {
    var all := lines + [line];
    if line.heading.Some? {
      assert all[|lines|].heading == line.heading;
    } else if heading.Some? {
      var i :| 0 <= i < |lines| && lines[i].heading == heading && forall j | i < j < |lines| :: lines[j].heading.None?;
      assert all[i].heading == heading;
    }
  }

  lemma {:induction false} LastLabelIsNearest(before: seq<Line>, heading: Option<string>, lines: seq<Line>)
    requires Nearest(before, heading)
    ensures Nearest(before + lines, LastLabel(lines, heading))
    decreases |lines|
  {
    if lines == [] {
      assert before + lines == before;
    } else {
      var front, last := lines[..|lines| - 1], lines[|lines| - 1];
      LastLabelIsNearest(before, heading, front);
      NearestAfter(before + front, LastLabel(front, heading), last);
      assert before + lines == before + front + [last];
    }
  }

  lemma NearestIsOne(lines: seq<Line>, a: Option<string>, b: Option<string>)
    requires Nearest(lines, a) && Nearest(lines, b)
    ensures a == b
  {
  }

  /** The scope of the analysis is what the way says. */
  ghost predicate Follows(sc: Scope, way: Way) {
    Nearest(way.before, sc.heading) && Knows(sc.aliases, way.names)
  }

  lemma {:induction false} AfterFollows(s: Stmt, sc: Scope, way: Way)
    requires Follows(sc, way)
    ensures Follows(After(s, sc), Past(s, way))
    decreases s, 0
  {
    match s
    case Declare(x, init) =>
      if init.Some? { KnowsOneMore(sc.aliases, way.names, Naming(x, init.value, false)); }
      SameWay(s, way);
    case Lines(elements) =>
      LastLabelIsNearest(way.before, sc.heading, elements);
      SameWay(s, way);
    case Push(line) =>
      NearestAfter(way.before, sc.heading, line);
      SameWay(s, way);
    case Block(body) =>
      AfterAllFollows(body, sc, way);
      SameWay(s, way);
    case _ => SameWay(s, way);
  }

  lemma SameWay(s: Stmt, way: Way)
    ensures Straight(s) == [] ==> Past(s, way).before == way.before
    ensures Names(s) == [] ==> Past(s, way).names == way.names
  {
  }

  lemma {:induction false} AfterAllFollows(ss: seq<Stmt>, sc: Scope, way: Way)
    requires Follows(sc, way)
    ensures Nearest(way.before + StraightAll(ss), AfterAll(ss, sc).heading)
    decreases ss, 0
  {
    if ss == [] {
      assert way.before + StraightAll(ss) == way.before;
    } else {
      AfterFollows(ss[0], sc, way);
      AfterAllFollows(ss[1..], After(ss[0], sc), Past(ss[0], way));
      assert way.before + StraightAll(ss) == way.before + Straight(ss[0]) + StraightAll(ss[1..]);
    }
  }

  /** The site records this line, under this label, with these conditions and the names in scope there. */
  ghost predicate SiteOf(site: Site, spot: Spot) {
    && StandsUnder(spot, site.heading) && site.shown == spot.line.shown && site.controls == spot.way.conditions
    && Knows(site.aliases, spot.way.names)
  }

  ghost predicate HasSpot(site: Site, spots: seq<Spot>) {
    exists spot :: spot in spots && SiteOf(site, spot)
  }

  ghost predicate HasSite(spot: Spot, heading: string, sites: seq<Site>) {
    exists site :: site in sites && site.heading == heading && SiteOf(site, spot)
  }

  /** The sites are the lines that stand under a label. */
  ghost predicate Covers(sites: seq<Site>, spots: seq<Spot>) {
    && (forall site | site in sites :: HasSpot(site, spots))
    && forall spot, heading | spot in spots && StandsUnder(spot, heading) :: HasSite(spot, heading, sites)
  }

  lemma CoversBoth(a: seq<Site>, p: seq<Spot>, b: seq<Site>, q: seq<Spot>)
    requires Covers(a, p) && Covers(b, q)
    ensures Covers(a + b, p + q)
  {
    forall site | site in a + b ensures HasSpot(site, p + q) {
      if site in a {
        var spot :| spot in p && SiteOf(site, spot);
        assert spot in p + q;
      } else {
        var spot :| spot in q && SiteOf(site, spot);
        assert spot in p + q;
      }
    }
    forall spot, heading | spot in p + q && StandsUnder(spot, heading) ensures HasSite(spot, heading, a + b) {
      if spot in p {
        var site :| site in a && site.heading == heading && SiteOf(site, spot);
        assert site in a + b;
      } else {
        var site :| site in b && site.heading == heading && SiteOf(site, spot);
        assert site in a + b;
      }
    }
  }

  /** The elements of the list, of which only those with a heading are recorded. */
  lemma {:induction false} LinesCovered(lines: seq<Line>, n: nat, sc: Scope, way: Way)
    requires n <= |lines| && Follows(sc, way)
    ensures Covers(LineSites(lines[..n], sc.aliases, way.conditions), Spots(Lines(lines), way)[..n])
  {
    if n > 0 {
      LinesCovered(lines, n - 1, sc, way);
      var line, spots := lines[n - 1], Spots(Lines(lines), way);
      var spot := Spot(line, false, way);
      var site := if line.heading.Some? then [Site(line.heading.value, line.shown, sc.aliases, way.conditions)] else [];
      OneCovered(site, spot);
      CoversBoth(LineSites(lines[..n - 1], sc.aliases, way.conditions), spots[..n - 1], site, [spot]);
      assert lines[..n][..n - 1] == lines[..n - 1] && spots[..n] == spots[..n - 1] + [spot];
    }
  }

  lemma OneCovered(site: seq<Site>, spot: Spot)
    requires |site| <= 1 && (|site| == 1 ==> SiteOf(site[0], spot))
    requires forall heading | StandsUnder(spot, heading) :: |site| == 1 && site[0].heading == heading
    ensures Covers(site, [spot])
  {
    forall one | one in site ensures HasSpot(one, [spot]) {
      assert spot in [spot];
    }
    forall heading | StandsUnder(spot, heading) ensures HasSite(spot, heading, site) {
      assert site[0] in site;
    }
  }

  lemma PushCovered(line: Line, sc: Scope, way: Way)
    requires Follows(sc, way)
    ensures Covers(Sites(Push(line), sc, way.conditions), Spots(Push(line), way))
  {
    var spot := Spot(line, true, way);
    forall heading | StandsUnder(spot, heading)
      ensures Sites(Push(line), sc, way.conditions) == [Site(heading, line.shown, sc.aliases, way.conditions)]
    {
      if line.heading.None? { NearestIsOne(way.before, sc.heading, Some(heading)); }
    }
    OneCovered(Sites(Push(line), sc, way.conditions), spot);
  }

  lemma {:induction false} SitesCover(s: Stmt, sc: Scope, way: Way)
    requires Follows(sc, way)
    ensures Covers(Sites(s, sc, way.conditions), Spots(s, way))
    decreases s, 0
  {
    match s
    case Lines(elements) =>
      LinesCovered(elements, |elements|, sc, way);
      assert elements[..|elements|] == elements && Spots(s, way)[..|elements|] == Spots(s, way);
    case Push(line) => PushCovered(line, sc, way);
    case Block(body) => SitesAllCover(body, sc, way);
    case If(cond, yes, no) =>
      var inner := way.(conditions := way.conditions + [cond]);
      SitesCover(yes, sc, inner);
      if no.Some? {
        SitesCover(no.value, sc, inner);
        CoversBoth(Sites(yes, sc, inner.conditions), Spots(yes, inner),
                   Sites(no.value, sc, inner.conditions), Spots(no.value, inner));
      } else {
        assert Sites(s, sc, way.conditions) == Sites(yes, sc, inner.conditions) && Spots(s, way) == Spots(yes, inner);
      }
    case ForOf(x, items, each) =>
      KnowsOneMore(sc.aliases, way.names, Naming(x, items, true));
      SitesCover(each, LoopScope(x, items, sc), way.(names := way.names + [Naming(x, items, true)]));
    case _ =>
  }

  lemma {:induction false} SitesAllCover(ss: seq<Stmt>, sc: Scope, way: Way)
    requires Follows(sc, way)
    ensures Covers(SitesAll(ss, sc, way.conditions), SpotsAll(ss, way))
    decreases ss, 0
  {
    if ss != [] {
      SitesCover(ss[0], sc, way);
      AfterFollows(ss[0], sc, way);
      SitesAllCover(ss[1..], After(ss[0], sc), Past(ss[0], way));
      CoversBoth(Sites(ss[0], sc, way.conditions), Spots(ss[0], way),
                 SitesAll(ss[1..], After(ss[0], sc), way.conditions), SpotsAll(ss[1..], Past(ss[0], way)));
    }
  }

  // ---------- what is collected ----------

  lemma CollectedFromParts(e: Expr, aliases: Aliases, path: string)
    ensures path in CollectParts(e, aliases)
            <==> exists i | 0 <= i < |Children(e)| :: path in Collect(Children(e)[i], aliases)
  {
    if e.Coalesce? {
      assert Children(e)[0] == e.left && Children(e)[1] == e.right;
    } else if e.Member? || e.Wrapped? {
      assert CollectParts(e, aliases) == Collect(Children(e)[0], aliases);
    } else if e.Other? {
      if path in CollectParts(e, aliases) {
        var i :| 0 <= i < |e.parts| && path in Collect(e.parts[i], aliases);
        assert Children(e)[i] == e.parts[i];
      }
      if i :| 0 <= i < |Children(e)| && path in Collect(Children(e)[i], aliases) {
        assert path in Collect(e.parts[i], aliases);
      }
    }
  }

  lemma OutermostIn(e: Expr, names: seq<Naming>, i: nat, place: seq<nat>, path: string)
    requires i < |Children(e)| && !IsPath(e, names)
    ensures Outermost(e, names, [i] + place, path) <==> Outermost(Children(e)[i], names, place, path)
  {
    var all, child := [i] + place, Children(e)[i];
    assert all[1..] == place && all[..0] == [];
    forall k | 0 < k <= |all| ensures PartAt(e, all[..k]) == PartAt(child, place[..k - 1]) {
      assert all[..k][0] == i && all[..k][1..] == place[..k - 1];
    }
    assert all[..|all|] == all && place[..|place|] == place;
    if Outermost(e, names, all, path) {
      forall k | 0 <= k < |place|
        ensures PartAt(child, place[..k]).Some? ==> !IsPath(PartAt(child, place[..k]).value, names)
      {
        assert PartAt(e, all[..k + 1]) == PartAt(child, place[..k]);
      }
    }
  }

  /** What is collected from an expression is what its outermost parts that name a part of the document name. */
  lemma {:induction false} CollectExactly(e: Expr, aliases: Aliases, names: seq<Naming>, path: string)
    requires Knows(aliases, names)
    ensures path in Collect(e, aliases) <==> Reads(e, names, path)
    decreases e
  {
    ResolveDenotes(e, aliases, names);
    if IsPath(e, names) {
      PathReadsItself(e, names, path);
    } else {
      CollectedFromParts(e, aliases, path);
      forall i | 0 <= i < |Children(e)|
        ensures path in Collect(Children(e)[i], aliases) <==> Reads(Children(e)[i], names, path)
      {
        CollectExactly(Children(e)[i], aliases, names, path);
      }
      ReadsInParts(e, names, path);
    }
  }

  lemma PathReadsItself(e: Expr, names: seq<Naming>, path: string)
    requires IsPath(e, names)
    ensures Reads(e, names, path) <==> Denotes(e, names) == Some(path)
  {
    if Denotes(e, names) == Some(path) {
      assert Outermost(e, names, [], path);
    }
    if place :| Outermost(e, names, place, path) {
      if place != [] {
        assert place[..0] == [];
        assert PartAt(e, place[..0]) == Some(e);
      }
    }
  }

  lemma ReadsInParts(e: Expr, names: seq<Naming>, path: string)
    requires !IsPath(e, names)
    ensures Reads(e, names, path) <==> exists i | 0 <= i < |Children(e)| :: Reads(Children(e)[i], names, path)
  {
    if place :| Outermost(e, names, place, path) {
      assert place != [];
      assert place == [place[0]] + place[1..];
      OutermostIn(e, names, place[0], place[1..], path);
      assert Reads(Children(e)[place[0]], names, path);
    }
    if i :| 0 <= i < |Children(e)| && Reads(Children(e)[i], names, path) {
      var place :| Outermost(Children(e)[i], names, place, path);
      OutermostIn(e, names, i, place, path);
    }
  }

  lemma PathsExactly(site: Site, spot: Spot, path: string)
    requires SiteOf(site, spot)
    ensures path in PathsOf(site) <==> RecordedWith(spot, path)
  {
    forall e: Expr, p: string ensures p in Collect(e, site.aliases) <==> Reads(e, spot.way.names, p) {
      CollectExactly(e, site.aliases, spot.way.names, p);
    }
  }

  // ---------- the record ----------

  const FROM_THE_TOP := Way([], [], [])

  /** Some line under the label is recorded with the path. */
  ghost predicate ShownUnder(body: seq<Stmt>, heading: string, path: string) {
    exists spot :: spot in SpotsAll(body, FROM_THE_TOP) && StandsUnder(spot, heading) && RecordedWith(spot, path)
  }

  /**
   * A path is in the record of a label exactly when a line that stands under the label reads it, or reads nothing
   * and stands in a branch whose condition reads it. A line stands under its own heading; a pushed line without one
   * under the nearest heading before it, where blocks count and branches and loops that are left do not. What is
   * read are the outermost parts that name a part of the document by way of the names in scope.
   */
  lemma RecordExactly(body: seq<Stmt>, heading: string, path: string)
    ensures RecordHas(Recorded(map[], SitesAll(body, START, [])), heading, path) <==> ShownUnder(body, heading, path)
  {
    var sites, spots := SitesAll(body, START, []), SpotsAll(body, FROM_THE_TOP);
    assert Knows(START.aliases, []);
    SitesAllCover(body, START, FROM_THE_TOP);
    RecordedExactly(map[], sites, heading, path);
    if site :| site in sites && site.heading == heading && path in PathsOf(site) {
      var spot :| spot in spots && SiteOf(site, spot);
      PathsExactly(site, spot, path);
    }
    if spot :| spot in spots && StandsUnder(spot, heading) && RecordedWith(spot, path) {
      assert HasSite(spot, heading, sites);
      var site :| site in sites && site.heading == heading && SiteOf(site, spot);
      PathsExactly(site, spot, path);
    }
  }

  lemma {:induction false} LabelsOf(r: Record, sites: seq<Site>, heading: string)
    ensures heading in Recorded(r, sites) <==> heading in r || exists site :: site in sites && site.heading == heading
    decreases |sites|
  {
    if sites != [] {
      var site := sites[0];
      var before := if site.heading in r then r[site.heading] else {};
      LabelsOf(r[site.heading := before + PathsOf(site)], sites[1..], heading);
      assert sites == [site] + sites[1..];
    }
  }

  /** The labels of the record are those that some line stands under. */
  lemma LabelsExactly(body: seq<Stmt>, heading: string)
    ensures heading in Recorded(map[], SitesAll(body, START, []))
            <==> exists spot :: spot in SpotsAll(body, FROM_THE_TOP) && StandsUnder(spot, heading)
  {
    var sites, spots := SitesAll(body, START, []), SpotsAll(body, FROM_THE_TOP);
    assert Knows(START.aliases, []);
    SitesAllCover(body, START, FROM_THE_TOP);
    LabelsOf(map[], sites, heading);
    if site :| site in sites && site.heading == heading {
      assert HasSpot(site, spots);
    }
    if spot :| spot in spots && StandsUnder(spot, heading) {
      assert HasSite(spot, heading, sites);
    }
  }
}
