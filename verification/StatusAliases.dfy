/**
 * The source check of the status formatter: it follows which local names stand for which part of the
 * status document, and collects for each printed label the document paths its lines read.
 */
module StatusAliases {
  import opened Options

  // ---------- formatter programs ----------

  /** `Member` is `obj.name`, `obj?.name`, `obj["name"]` or `obj[0]`; `Wrapped` a cast or parentheses. */
  datatype Expr =
    | Ident(name: string)
    | Member(obj: Expr, field: string, optional: bool)
    | Wrapped(inner: Expr)
    | Coalesce(left: Expr, right: Expr)
    | EmptyList
    | Other(id: nat, parts: seq<Expr>)

  /** An element of the `lines` list: the label its text starts with, if any. */
  datatype Line = Line(heading: Option<string>, shown: Expr)

  datatype Stmt =
    | Declare(name: string, init: Option<Expr>)
    | Lines(elements: seq<Line>)
    | Push(line: Line)
    | Block(body: seq<Stmt>)
    | If(cond: Expr, yes: Stmt, no: Option<Stmt>)
    | ForOf(item: string, items: Expr, each: Stmt)
    | Nothing

  // ---------- the analysis ----------

  type Aliases = map<string, string>

  function Extend(path: string, field: string): string {
    if path == "" then field else path + "." + field
  }

  /** `resolveMemberPath`. */
  function Resolve(e: Expr, aliases: Aliases): Option<string> {
    match e
    case Ident(x) => if x in aliases then Some(aliases[x]) else None
    case Wrapped(inner) => Resolve(inner, aliases)
    case Member(obj, field, _) =>
      (match Resolve(obj, aliases)
       case None => None
       case Some(path) => Some(Extend(path, field)))
    case _ => None
  }

  /** `resolveIterablePath`: the fallback of `??` is passed over. */
  function ResolveIterable(e: Expr, aliases: Aliases): Option<string> {
    match e
    case Wrapped(inner) => ResolveIterable(inner, aliases)
    case Coalesce(left, _) => ResolveIterable(left, aliases)
    case _ => Resolve(e, aliases)
  }

  /** `collectMemberPaths`: the outermost expressions that resolve to a path below the document. */
  function Collect(e: Expr, aliases: Aliases): set<string>
    decreases e, 1
  {
    match Resolve(e, aliases)
    case Some(path) => if path != "" then {path} else CollectParts(e, aliases)
    case None => CollectParts(e, aliases)
  }

  function CollectParts(e: Expr, aliases: Aliases): set<string>
    decreases e, 0
  {
    match e
    case Member(obj, _, _) => Collect(obj, aliases)
    case Wrapped(inner) => Collect(inner, aliases)
    case Coalesce(left, right) => Collect(left, aliases) + Collect(right, aliases)
    case Other(_, parts) => set i, p | 0 <= i < |parts| && p in Collect(parts[i], aliases) :: p
    case _ => {}
  }

  /** Where the analysis stands: the aliases in scope and the label that unlabelled lines continue. */
  datatype Scope = Scope(aliases: Aliases, heading: Option<string>)

  function LabelOf(line: Line, heading: Option<string>): Option<string> {
    if line.heading.Some? then line.heading else heading
  }

  function LastLabel(lines: seq<Line>, heading: Option<string>): Option<string> {
    if lines == [] then heading else LabelOf(lines[|lines| - 1], LastLabel(lines[..|lines| - 1], heading))
  }

  /** The scope a statement leaves behind for the next one. */
  function After(s: Stmt, sc: Scope): Scope
    decreases s, 0
  {
    match s
    case Declare(x, init) =>
      if init.None? then sc
      else
        (match Resolve(init.value, sc.aliases)
         case None => sc
         case Some(path) => sc.(aliases := sc.aliases[x := path]))
    case Lines(elements) => sc.(heading := LastLabel(elements, sc.heading))
    case Push(line) => sc.(heading := LabelOf(line, sc.heading))
    case Block(body) => sc.(heading := AfterAll(body, sc).heading)
    case _ => sc
  }

  function AfterAll(ss: seq<Stmt>, sc: Scope): Scope
    decreases ss, 0
  {
    if ss == [] then sc else AfterAll(ss[1..], After(ss[0], sc))
  }

  function LoopScope(x: string, items: Expr, sc: Scope): Scope {
    match ResolveIterable(items, sc.aliases)
    case None => sc
    case Some(path) => sc.(aliases := sc.aliases[x := path + "[]"])
  }

  /** A recorded line: its label, what it shows, and the aliases and branch conditions around it. */
  datatype Site = Site(heading: string, shown: Expr, aliases: Aliases, controls: seq<Expr>)

  function LineSites(lines: seq<Line>, aliases: Aliases, controls: seq<Expr>): seq<Site> {
    if lines == [] then []
    else
      LineSites(lines[..|lines| - 1], aliases, controls)
      + var line := lines[|lines| - 1];
        if line.heading.Some? then [Site(line.heading.value, line.shown, aliases, controls)] else []
  }

  function Sites(s: Stmt, sc: Scope, controls: seq<Expr>): seq<Site>
    decreases s, 0
  {
    match s
    case Lines(elements) => LineSites(elements, sc.aliases, controls)
    case Push(line) =>
      if LabelOf(line, sc.heading).Some?
      then [Site(LabelOf(line, sc.heading).value, line.shown, sc.aliases, controls)] else []
    case Block(body) => SitesAll(body, sc, controls)
    case If(cond, yes, no) =>
      Sites(yes, sc, controls + [cond]) + if no.Some? then Sites(no.value, sc, controls + [cond]) else []
    case ForOf(x, items, each) => Sites(each, LoopScope(x, items, sc), controls)
    case _ => []
  }

  function SitesAll(ss: seq<Stmt>, sc: Scope, controls: seq<Expr>): seq<Site>
    decreases ss, 0
  {
    if ss == [] then [] else Sites(ss[0], sc, controls) + SitesAll(ss[1..], After(ss[0], sc), controls)
  }

  /** What a line reads itself, or else what the conditions around it read. */
  function PathsOf(site: Site): set<string> {
    var direct := Collect(site.shown, site.aliases);
    if direct != {} then direct
    else set i, p | 0 <= i < |site.controls| && p in Collect(site.controls[i], site.aliases) :: p
  }

  type Record = map<string, set<string>>

  function Recorded(r: Record, sites: seq<Site>): Record
    decreases |sites|
  {
    if sites == [] then r
    else
      var site := sites[0];
      var before := if site.heading in r then r[site.heading] else {};
      Recorded(r[site.heading := before + PathsOf(site)], sites[1..])
  }

  class Extractor {
    var pathsByLabel: Record

    constructor ()
      ensures pathsByLabel == map[]
    {
      pathsByLabel := map[];
    }

    method RecordLine(heading: string, shown: Expr, controls: seq<Expr>, aliases: Aliases)
      modifies this
      ensures pathsByLabel == Recorded(old(pathsByLabel), [Site(heading, shown, aliases, controls)])
    {
      var paths := Collect(shown, aliases);
      if paths == {} {
        paths := set i, p | 0 <= i < |controls| && p in Collect(controls[i], aliases) :: p;
      }
      var labelPaths := if heading in pathsByLabel then pathsByLabel[heading] else {};
      pathsByLabel := pathsByLabel[heading := labelPaths + paths];
    }

    method ProcessStatement(s: Stmt, aliases: Aliases, heading: Option<string>, controls: seq<Expr>)
      returns (aliases': Aliases, heading': Option<string>)
      modifies this
      ensures Scope(aliases', heading') == After(s, Scope(aliases, heading))
      ensures pathsByLabel == Recorded(old(pathsByLabel), Sites(s, Scope(aliases, heading), controls))
      decreases s, 0
    {
      aliases', heading' := aliases, heading;
      match s {
        case Declare(x, init) =>
          if init.Some? {
            var path := Resolve(init.value, aliases);
            if path.Some? { aliases' := aliases[x := path.value]; }
          }
        case Lines(elements) =>
          heading' := ProcessLines(elements, aliases, heading, controls);
        case Push(line) =>
          heading' := LabelOf(line, heading);
          if heading'.Some? { RecordLine(heading'.value, line.shown, controls, aliases); }
        case Block(body) =>
          var _, inner := ProcessStatements(body, aliases, heading, controls);
          heading' := inner;
        case If(cond, yes, no) =>
          var _, _ := ProcessStatement(yes, aliases, heading, controls + [cond]);
          if no.Some? {
            ghost var before := old(pathsByLabel);
            RecordedConcat(before, Sites(yes, Scope(aliases, heading), controls + [cond]),
                           Sites(no.value, Scope(aliases, heading), controls + [cond]));
            var _, _ := ProcessStatement(no.value, aliases, heading, controls + [cond]);
          } else {
            assert Sites(yes, Scope(aliases, heading), controls + [cond]) + []
                == Sites(yes, Scope(aliases, heading), controls + [cond]);
          }
        case ForOf(x, items, each) =>
          var loopAliases := aliases;
          var path := ResolveIterable(items, aliases);
          if path.Some? { loopAliases := aliases[x := path.value + "[]"]; }
          var _, _ := ProcessStatement(each, loopAliases, heading, controls);
        case Nothing =>
      }
    }

    method ProcessStatements(ss: seq<Stmt>, aliases: Aliases, heading: Option<string>, controls: seq<Expr>)
      returns (aliases': Aliases, heading': Option<string>)
      modifies this
      ensures Scope(aliases', heading') == AfterAll(ss, Scope(aliases, heading))
      ensures pathsByLabel == Recorded(old(pathsByLabel), SitesAll(ss, Scope(aliases, heading), controls))
      decreases ss, 0
    {
      aliases', heading' := aliases, heading;
      for i := 0 to |ss|
        invariant AfterAll(ss, Scope(aliases, heading)) == AfterAll(ss[i..], Scope(aliases', heading'))
        invariant Recorded(old(pathsByLabel), SitesAll(ss, Scope(aliases, heading), controls))
               == Recorded(pathsByLabel, SitesAll(ss[i..], Scope(aliases', heading'), controls))
      {
        assert ss[i..][1..] == ss[i + 1..];
        ghost var sc := Scope(aliases', heading');
        RecordedConcat(pathsByLabel, Sites(ss[i], sc, controls), SitesAll(ss[i + 1..], After(ss[i], sc), controls));
        aliases', heading' := ProcessStatement(ss[i], aliases', heading', controls);
      }
    }

    method ProcessLines(lines: seq<Line>, aliases: Aliases, heading: Option<string>, controls: seq<Expr>)
      returns (heading': Option<string>)
      modifies this
      ensures heading' == LastLabel(lines, heading)
      ensures pathsByLabel == Recorded(old(pathsByLabel), LineSites(lines, aliases, controls))
    {
      heading' := heading;
      for i := 0 to |lines|
        invariant heading' == LastLabel(lines[..i], heading)
        invariant pathsByLabel == Recorded(old(pathsByLabel), LineSites(lines[..i], aliases, controls))
      {
        assert lines[..i + 1][..i] == lines[..i] && lines[..i + 1][i] == lines[i];
        if lines[i].heading.Some? {
          RecordedConcat(old(pathsByLabel), LineSites(lines[..i], aliases, controls),
                         [Site(lines[i].heading.value, lines[i].shown, aliases, controls)]);
          RecordLine(lines[i].heading.value, lines[i].shown, controls, aliases);
          heading' := lines[i].heading;
        } else {
          assert LineSites(lines[..i], aliases, controls) + [] == LineSites(lines[..i], aliases, controls);
        }
      }
      assert lines[..|lines|] == lines;
    }
  }

  lemma {:induction false} RecordedConcat(r: Record, a: seq<Site>, b: seq<Site>)
    ensures Recorded(r, a + b) == Recorded(Recorded(r, a), b)
    decreases |a|
  {
    if a == [] {
      assert a + b == b;
    } else {
      assert (a + b)[1..] == a[1..] + b;
      var before := if a[0].heading in r then r[a[0].heading] else {};
      RecordedConcat(r[a[0].heading := before + PathsOf(a[0])], a[1..], b);
    }
  }

  /** `extractServerStatusSourcePaths`, on the body of the formatter. */
  method ExtractSourcePaths(body: seq<Stmt>) returns (paths: Record)
    ensures paths == Recorded(map[], SitesAll(body, Scope(map["status" := ""], None), []))
  {
    var x := new Extractor();
    var _, _ := x.ProcessStatements(body, map["status" := ""], None, []);
    paths := x.pathsByLabel;
  }

  // ---------- what formatter programs do ----------

  /** A run-time value: null and undefined are absent; anything else has fields, and elements if iterated. */
  datatype Value = Absent | Present(fields: map<string, Value>, elements: seq<Value>, truthy: bool)

  type Env = map<string, Value>

  /** What an expression the analysis does not look into evaluates to; nothing when it throws. */
  type World = (nat, Env) -> Option<Value>

  function Get(v: Value, field: string): Value {
    if v.Present? && field in v.fields then v.fields[field] else Absent
  }

  /** The outcome of an access chain: `?.` on an absent value cuts the rest of the chain off. */
  datatype Outcome = Throws | Cut | Has(v: Value)

  function Eval(e: Expr, env: Env, world: World): Option<Value>
    decreases e, 1
  {
    match e
    case Ident(x) => if x in env then Some(env[x]) else None
    case Wrapped(inner) => Eval(inner, env, world)
    case Member(_, _, _) =>
      (match Chain(e, env, world)
       case Throws => None
       case Cut => Some(Absent)
       case Has(v) => Some(v))
    case Coalesce(left, right) =>
      (match Eval(left, env, world)
       case None => None
       case Some(Absent) => Eval(right, env, world)
       case Some(v) => Some(v))
    case EmptyList => Some(Present(map[], [], true))
    case Other(id, _) => world(id, env)
  }

  function Chain(e: Expr, env: Env, world: World): Outcome
    requires e.Member?
    decreases e, 0
  {
    var before := if e.obj.Member? then Chain(e.obj, env, world)
                  else
                    match Eval(e.obj, env, world)
                    case None => Throws
                    case Some(v) => Has(v);
    match before
    case Throws => Throws
    case Cut => Cut
    case Has(Absent) => if e.optional then Cut else Throws
    case Has(v) => Has(Get(v, e.field))
  }

  // ---------- places in the document ----------

  datatype Step = Field(name: string) | Element(i: nat)

  type Place = seq<Step>

  function Follow(v: Value, step: Step): Value {
    match step
    case Field(name) => Get(v, name)
    case Element(i) => if v.Present? && i < |v.elements| then v.elements[i] else Absent
  }

  function At(doc: Value, p: Place): Value {
    if p == [] then doc else Follow(At(doc, p[..|p| - 1]), p[|p| - 1])
  }

  /** The text of a place: every element of a list is written `[]`. */
  function Text(p: Place): string {
    if p == [] then ""
    else
      match p[|p| - 1]
      case Field(name) => Extend(Text(p[..|p| - 1]), name)
      case Element(_) => Text(p[..|p| - 1]) + "[]"
  }

  /** Which place of the document each aliased name stands for at the moment. */
  type Places = map<string, Place>

  /** The place a resolved expression stands for. */
  function PlaceOf(e: Expr, places: Places): Place {
    match e
    case Ident(x) => if x in places then places[x] else []
    case Wrapped(inner) => PlaceOf(inner, places)
    case Member(obj, field, _) => PlaceOf(obj, places) + [Field(field)]
    case _ => []
  }

  function IterablePlace(e: Expr, places: Places): Place {
    match e
    case Wrapped(inner) => IterablePlace(inner, places)
    case Coalesce(left, _) => IterablePlace(left, places)
    case _ => PlaceOf(e, places)
  }

  function DeclaredPlaces(x: string, init: Option<Expr>, sc: Scope, places: Places): Places {
    if init.Some? && Resolve(init.value, sc.aliases).Some? then places[x := PlaceOf(init.value, places)] else places
  }

  /** In round i of a loop the variable stands for element i of the iterable's place. */
  function LoopPlaces(x: string, items: Expr, sc: Scope, places: Places, i: nat): Places {
    if ResolveIterable(items, sc.aliases).None? then places
    else places[x := IterablePlace(items, places) + [Element(i)]]
  }

  // ---------- runs ----------

  /** A line about to be shown: where it stands for the analysis, the values of the names, and their places. */
  datatype Visit = Visit(site: Site, env: Env, places: Places)

  /** A run visits lines and ends with its names and their places, or with an exception. */
  datatype Run = Run(visits: seq<Visit>, end: Option<(Env, Places)>)

  function LineVisits(lines: seq<Line>, env: Env, places: Places, aliases: Aliases, controls: seq<Expr>): seq<Visit> {
    var sites := LineSites(lines, aliases, controls);
    seq(|sites|, i requires 0 <= i < |sites| => Visit(sites[i], env, places))
  }

  /**
   * Executes a statement. The scope and the places run along so that each visit knows the aliases of where it
   * stands; they do not influence what is executed. Names declared in a block, branch or loop end with it.
   */
  function Exec(s: Stmt, env: Env, sc: Scope, places: Places, controls: seq<Expr>, world: World): Run
    decreases s, 1, 0
  {
    match s
    case Declare(x, init) =>
      var value := if init.None? then Some(Absent) else Eval(init.value, env, world);
      if value.None? then Run([], None)
      else Run([], Some((env[x := value.value], DeclaredPlaces(x, init, sc, places))))
    case Lines(elements) => Run(LineVisits(elements, env, places, sc.aliases, controls), Some((env, places)))
    case Push(line) =>
      var heading := LabelOf(line, sc.heading);
      Run(if heading.Some? then [Visit(Site(heading.value, line.shown, sc.aliases, controls), env, places)] else [],
          if Eval(line.shown, env, world).None? then None else Some((env, places)))
    case Block(body) => Leave(ExecAll(body, env, sc, places, controls, world), env, places)
    case If(cond, yes, no) =>
      (match Eval(cond, env, world)
       case None => Run([], None)
       case Some(v) =>
         if v.Present? && v.truthy then Leave(Exec(yes, env, sc, places, controls + [cond], world), env, places)
         else if no.Some? then Leave(Exec(no.value, env, sc, places, controls + [cond], world), env, places)
         else Run([], Some((env, places))))
    case ForOf(x, items, each) =>
      (match Eval(items, env, world)
       case None => Run([], None)
       case Some(v) =>
         if v.Absent? then Run([], None)
         else ExecLoop(x, items, v.elements, 0, each, env, sc, places, controls, world))
    case Nothing => Run([], Some((env, places)))
  }

  function Leave(r: Run, env: Env, places: Places): Run {
    if r.end.None? then r else Run(r.visits, Some((env, places)))
  }

  function ExecAll(ss: seq<Stmt>, env: Env, sc: Scope, places: Places, controls: seq<Expr>, world: World): Run
    decreases ss, 0, 0
  {
    if ss == [] then Run([], Some((env, places)))
    else
      var first := Exec(ss[0], env, sc, places, controls, world);
      if first.end.None? then first
      else
        var rest := ExecAll(ss[1..], first.end.value.0, After(ss[0], sc), first.end.value.1, controls, world);
        Run(first.visits + rest.visits, rest.end)
  }

  /** The rounds from the i-th on. */
  function ExecLoop(x: string, items: Expr, elements: seq<Value>, i: nat, each: Stmt, env: Env, sc: Scope,
                    places: Places, controls: seq<Expr>, world: World): Run
    requires i <= |elements|
    decreases each, 2, |elements| - i
  {
    if i == |elements| then Run([], Some((env, places)))
    else
      var inner := LoopPlaces(x, items, sc, places, i);
      var first := Exec(each, env[x := elements[i]], LoopScope(x, items, sc), inner, controls, world);
      if first.end.None? then first
      else
        var rest := ExecLoop(x, items, elements, i + 1, each, env, sc, places, controls, world);
        Run(first.visits + rest.visits, rest.end)
  }

  // ---------- programs the analysis is made for ----------

  /** The value is the document's at that place, and the path is the place's text. */
  ghost predicate Stands(doc: Value, place: Place, path: string, v: Value) {
    Text(place) == path && At(doc, place) == v
  }

  ghost predicate Agrees(aliases: Aliases, places: Places, env: Env, doc: Value) {
    forall x | x in aliases :: x in env && x in places && Stands(doc, places[x], aliases[x], env[x])
  }

  /** Every fallback in an iterable position is the empty list. */
  predicate EmptyFallbacks(e: Expr) {
    match e
    case Wrapped(inner) => EmptyFallbacks(inner)
    case Coalesce(left, right) => right.EmptyList? && EmptyFallbacks(left)
    case _ => true
  }

  /** A declaration does not hide an alias unless it resolves itself. */
  predicate DeclareFits(x: string, init: Option<Expr>, aliases: Aliases) {
    x !in aliases || (init.Some? && Resolve(init.value, aliases).Some?)
  }

  predicate LoopFits(x: string, items: Expr, aliases: Aliases) {
    x !in aliases || ResolveIterable(items, aliases).Some?
  }

  predicate Fits(s: Stmt, sc: Scope)
    decreases s, 0
  {
    match s
    case Declare(x, init) => DeclareFits(x, init, sc.aliases)
    case Block(body) => FitsAll(body, sc)
    case If(_, yes, no) => Fits(yes, sc) && (no.Some? ==> Fits(no.value, sc))
    case ForOf(x, items, each) =>
      EmptyFallbacks(items) && LoopFits(x, items, sc.aliases) && Fits(each, LoopScope(x, items, sc))
    case _ => true
  }

  predicate FitsAll(ss: seq<Stmt>, sc: Scope)
    decreases ss, 0
  {
    ss == [] || (Fits(ss[0], sc) && FitsAll(ss[1..], After(ss[0], sc)))
  }

  // ---------- soundness ----------

  lemma StepField(doc: Value, place: Place, path: string, v: Value, field: string)
    requires Stands(doc, place, path, v)
    ensures Stands(doc, place + [Field(field)], Extend(path, field), Get(v, field))
  {
    var q := place + [Field(field)];
    assert q[..|q| - 1] == place;
  }

  lemma StepElement(doc: Value, place: Place, path: string, v: Value, i: nat)
    requires Stands(doc, place, path, v) && v.Present? && i < |v.elements|
    ensures Stands(doc, place + [Element(i)], path + "[]", v.elements[i])
  {
    var q := place + [Element(i)];
    assert q[..|q| - 1] == place;
  }

  /** An expression that resolves to a path evaluates to the document's value at the place it stands for. */
  lemma {:induction false} ResolvedValue(e: Expr, aliases: Aliases, places: Places, env: Env, doc: Value, world: World)
    requires Agrees(aliases, places, env, doc) && Resolve(e, aliases).Some? && Eval(e, env, world).Some?
    ensures Stands(doc, PlaceOf(e, places), Resolve(e, aliases).value, Eval(e, env, world).value)
    decreases e, 1
  {
    match e
    case Ident(_) =>
    case Wrapped(inner) => ResolvedValue(inner, aliases, places, env, doc, world);
    case Member(_, _, _) => ResolvedChain(e, aliases, places, env, doc, world);
  }

  lemma {:induction false} ResolvedChain(e: Expr, aliases: Aliases, places: Places, env: Env, doc: Value, world: World)
    requires e.Member? && Agrees(aliases, places, env, doc)
    requires Resolve(e, aliases).Some? && !Chain(e, env, world).Throws?
    ensures Stands(doc, PlaceOf(e, places), Resolve(e, aliases).value,
                   if Chain(e, env, world).Has? then Chain(e, env, world).v else Absent)
    decreases e, 0
  {
    var path, place := Resolve(e.obj, aliases).value, PlaceOf(e.obj, places);
    if e.obj.Member? {
      ResolvedChain(e.obj, aliases, places, env, doc, world);
      var before := Chain(e.obj, env, world);
      StepField(doc, place, path, if before.Has? then before.v else Absent, e.field);
    } else {
      ResolvedValue(e.obj, aliases, places, env, doc, world);
      StepField(doc, place, path, Eval(e.obj, env, world).value, e.field);
    }
  }

  /** Element i of a resolved iterable is the document's element i at the iterable's place. */
  lemma {:induction false} ResolvedElements(e: Expr, aliases: Aliases, places: Places, env: Env, doc: Value,
                                            world: World, i: nat)
    requires Agrees(aliases, places, env, doc) && EmptyFallbacks(e) && ResolveIterable(e, aliases).Some?
    requires Eval(e, env, world).Some? && Eval(e, env, world).value.Present? && i < |Eval(e, env, world).value.elements|
    ensures Stands(doc, IterablePlace(e, places) + [Element(i)], ResolveIterable(e, aliases).value + "[]",
                   Eval(e, env, world).value.elements[i])
  {
    if e.Wrapped? {
      ResolvedElements(e.inner, aliases, places, env, doc, world, i);
    } else if e.Coalesce? {
      ResolvedElements(e.left, aliases, places, env, doc, world, i);
    } else {
      ResolvedValue(e, aliases, places, env, doc, world);
      StepElement(doc, PlaceOf(e, places), Resolve(e, aliases).value, Eval(e, env, world).value, i);
    }
  }

  ghost predicate ElementsStand(items: Expr, aliases: Aliases, places: Places, elements: seq<Value>, doc: Value) {
    ResolveIterable(items, aliases).Some? ==>
      forall i | 0 <= i < |elements| ::
        Stands(doc, IterablePlace(items, places) + [Element(i)], ResolveIterable(items, aliases).value + "[]",
               elements[i])
  }

  lemma LoopElements(items: Expr, aliases: Aliases, places: Places, env: Env, doc: Value, world: World)
    requires Agrees(aliases, places, env, doc) && EmptyFallbacks(items)
    requires Eval(items, env, world).Some? && Eval(items, env, world).value.Present?
    ensures ElementsStand(items, aliases, places, Eval(items, env, world).value.elements, doc)
  {
    var elements := Eval(items, env, world).value.elements;
    forall i | 0 <= i < |elements| && ResolveIterable(items, aliases).Some?
      ensures Stands(doc, IterablePlace(items, places) + [Element(i)], ResolveIterable(items, aliases).value + "[]",
                     elements[i])
    {
      ResolvedElements(items, aliases, places, env, doc, world, i);
    }
  }

  /** What a run keeps: its visits stand at recorded lines, and the aliases there agree with the values. */
  ghost predicate Sound(r: Run, sites: seq<Site>, doc: Value) {
    forall v | v in r.visits :: v.site in sites && Agrees(v.site.aliases, v.places, v.env, doc)
  }

  ghost predicate Continues(r: Run, aliases: Aliases, doc: Value) {
    r.end.Some? ==> Agrees(aliases, r.end.value.1, r.end.value.0, doc)
  }

  lemma {:induction false} ExecIsSound(s: Stmt, env: Env, sc: Scope, places: Places, controls: seq<Expr>, world: World,
                                       doc: Value)
    requires Agrees(sc.aliases, places, env, doc) && Fits(s, sc)
    ensures Sound(Exec(s, env, sc, places, controls, world), Sites(s, sc, controls), doc)
    ensures Continues(Exec(s, env, sc, places, controls, world), After(s, sc).aliases, doc)
    decreases s, 1, 0
  {
    if s.Declare? {
      DeclareIsSound(s, env, sc, places, controls, world, doc);
    } else if s.Block? {
      ExecAllIsSound(s.body, env, sc, places, controls, world, doc);
    } else if s.If? {
      ExecIsSound(s.yes, env, sc, places, controls + [s.cond], world, doc);
      if s.no.Some? { ExecIsSound(s.no.value, env, sc, places, controls + [s.cond], world, doc); }
    } else if s.ForOf? {
      var v := Eval(s.items, env, world);
      if v.Some? && v.value.Present? {
        LoopElements(s.items, sc.aliases, places, env, doc, world);
        LoopIsSound(s.item, s.items, v.value.elements, 0, s.each, env, sc, places, controls, world, doc);
      }
    } else if s.Lines? {
      LinesAreSound(s.elements, env, places, sc.aliases, controls, doc);
    }
  }

  lemma LinesAreSound(lines: seq<Line>, env: Env, places: Places, aliases: Aliases, controls: seq<Expr>, doc: Value)
    requires Agrees(aliases, places, env, doc)
    ensures forall v | v in LineVisits(lines, env, places, aliases, controls) ::
              v.site in LineSites(lines, aliases, controls) && Agrees(v.site.aliases, v.places, v.env, doc)
  {
    SitesShareAliases(lines, aliases, controls);
  }

  lemma {:induction false} SitesShareAliases(lines: seq<Line>, aliases: Aliases, controls: seq<Expr>)
    ensures forall site | site in LineSites(lines, aliases, controls) :: site.aliases == aliases
  {
    if lines != [] { SitesShareAliases(lines[..|lines| - 1], aliases, controls); }
  }

  lemma DeclareIsSound(s: Stmt, env: Env, sc: Scope, places: Places, controls: seq<Expr>, world: World, doc: Value)
    requires s.Declare? && Agrees(sc.aliases, places, env, doc) && DeclareFits(s.name, s.init, sc.aliases)
    ensures Continues(Exec(s, env, sc, places, controls, world), After(s, sc).aliases, doc)
  {
    if s.init.Some? && Resolve(s.init.value, sc.aliases).Some? && Eval(s.init.value, env, world).Some? {
      ResolvedValue(s.init.value, sc.aliases, places, env, doc, world);
    }
  }

  lemma {:induction false} ExecAllIsSound(ss: seq<Stmt>, env: Env, sc: Scope, places: Places, controls: seq<Expr>,
                                          world: World, doc: Value)
    requires Agrees(sc.aliases, places, env, doc) && FitsAll(ss, sc)
    ensures Sound(ExecAll(ss, env, sc, places, controls, world), SitesAll(ss, sc, controls), doc)
    decreases ss, 0, 0
  {
    if ss != [] {
      var first := Exec(ss[0], env, sc, places, controls, world);
      ExecIsSound(ss[0], env, sc, places, controls, world, doc);
      if first.end.Some? {
        ExecAllIsSound(ss[1..], first.end.value.0, After(ss[0], sc), first.end.value.1, controls, world, doc);
      }
    }
  }

  /** In each round the variable agrees: it stands for the element of that round. */
  lemma LoopAgreement(x: string, items: Expr, elements: seq<Value>, i: nat, env: Env, sc: Scope, places: Places,
                      doc: Value)
    requires Agrees(sc.aliases, places, env, doc) && LoopFits(x, items, sc.aliases)
    requires ElementsStand(items, sc.aliases, places, elements, doc) && i < |elements|
    ensures Agrees(LoopScope(x, items, sc).aliases, LoopPlaces(x, items, sc, places, i), env[x := elements[i]], doc)
  {
  }

  lemma {:induction false} LoopIsSound(x: string, items: Expr, elements: seq<Value>, i: nat, each: Stmt, env: Env,
                                       sc: Scope, places: Places, controls: seq<Expr>, world: World, doc: Value)
    requires Agrees(sc.aliases, places, env, doc) && LoopFits(x, items, sc.aliases) && i <= |elements|
    requires Fits(each, LoopScope(x, items, sc)) && ElementsStand(items, sc.aliases, places, elements, doc)
    ensures var r := ExecLoop(x, items, elements, i, each, env, sc, places, controls, world);
            Sound(r, Sites(each, LoopScope(x, items, sc), controls), doc)
            && (r.end.Some? ==> r.end == Some((env, places)))
    decreases each, 2, |elements| - i
  {
    if i < |elements| {
      LoopAgreement(x, items, elements, i, env, sc, places, doc);
      ExecIsSound(each, env[x := elements[i]], LoopScope(x, items, sc), LoopPlaces(x, items, sc, places, i), controls,
                  world, doc);
      LoopIsSound(x, items, elements, i + 1, each, env, sc, places, controls, world, doc);
    }
  }

  // ---------- the conditions are exact ----------

  /** Whatever the document, the names and the outside world, a declaration that completes keeps agreement. */
  ghost predicate AlwaysAgrees(x: string, init: Option<Expr>, sc: Scope) {
    forall env: Env, places: Places, doc: Value, world: World ::
      Agrees(sc.aliases, places, env, doc)
      ==> Continues(Exec(Declare(x, init), env, sc, places, [], world), After(Declare(x, init), sc).aliases, doc)
  }

  ghost predicate RoundAgrees(x: string, items: Expr, sc: Scope, env: Env, places: Places, doc: Value, world: World,
                              i: nat) {
    Agrees(sc.aliases, places, env, doc) && Eval(items, env, world).Some? && Eval(items, env, world).value.Present?
    && i < |Eval(items, env, world).value.elements|
    ==> Agrees(LoopScope(x, items, sc).aliases, LoopPlaces(x, items, sc, places, i),
               env[x := Eval(items, env, world).value.elements[i]], doc)
  }

  ghost predicate RoundsAlwaysAgree(x: string, items: Expr, sc: Scope) {
    forall env: Env, places: Places, doc: Value, world: World, i: nat ::
      RoundAgrees(x, items, sc, env, places, doc, world, i)
  }

  /** The expression takes its value from a name other than x or from the outside world. */
  predicate Rooted(e: Expr, x: string) {
    match e
    case Ident(z) => z != x
    case Wrapped(inner) => Rooted(inner, x)
    case Member(obj, _, _) => Rooted(obj, x)
    case Coalesce(left, _) => Rooted(left, x)
    case EmptyList => false
    case Other(_, _) => true
  }

  predicate IsEmptyList(e: Expr) {
    match e
    case EmptyList => true
    case Wrapped(inner) => IsEmptyList(inner)
    case Coalesce(left, _) => IsEmptyList(left)
    case _ => false
  }

  function Base(e: Expr): Option<string> {
    match e
    case Ident(z) => Some(z)
    case Wrapped(inner) => Base(inner)
    case Member(obj, _, _) => Base(obj)
    case Coalesce(left, _) => Base(left)
    case _ => None
  }

  /** What the root has to be for the expression to have value t, and how many fields lie between. */
  function Want(e: Expr, t: Value): Value {
    match e
    case Wrapped(inner) => Want(inner, t)
    case Member(obj, field, _) => Want(obj, Present(map[field := t], [], true))
    case Coalesce(left, _) => Want(left, t)
    case _ => t
  }

  function Fields(e: Expr): nat {
    match e
    case Wrapped(inner) => Fields(inner)
    case Member(obj, _, _) => Fields(obj) + 1
    case Coalesce(left, _) => Fields(left)
    case _ => 0
  }

  lemma {:induction false} WantedValue(e: Expr, x: string, t: Value, env: Env, world: World)
    requires Rooted(e, x) && t.Present?
    requires Base(e).Some? ==> Base(e).value in env && env[Base(e).value] == Want(e, t)
    requires forall id :: world(id, env) == Some(Want(e, t))
    ensures Eval(e, env, world) == Some(t) && (e.Member? ==> Chain(e, env, world) == Has(t))
  {
    match e
    case Wrapped(inner) => WantedValue(inner, x, t, env, world);
    case Member(obj, field, _) => WantedValue(obj, x, Present(map[field := t], [], true), env, world);
    case Coalesce(left, _) => WantedValue(left, x, t, env, world);
    case _ =>
  }

  /** The field with the empty name, n times over. */
  function Drop(v: Value, n: nat): Value {
    if n == 0 then v else Get(Drop(v, n - 1), "")
  }

  function Pad(n: nat): Place {
    if n == 0 then [] else Pad(n - 1) + [Field("")]
  }

  lemma {:induction false} DropFirst(v: Value, n: nat)
    ensures Drop(v, n + 1) == Drop(Get(v, ""), n)
  {
    if n > 0 { DropFirst(v, n - 1); }
  }

  lemma {:induction false} DropAbsent(n: nat)
    ensures Drop(Absent, n) == Absent
  {
    if n > 0 { DropAbsent(n - 1); }
  }

  lemma {:induction false} WantFades(e: Expr, t: Value, n: nat)
    requires Drop(t, n) == Absent
    ensures Drop(Want(e, t), n + Fields(e)) == Absent
  {
    match e
    case Wrapped(inner) => WantFades(inner, t, n);
    case Coalesce(left, _) => WantFades(left, t, n);
    case Member(obj, field, _) =>
      var u := Present(map[field := t], [], true);
      DropFirst(u, n);
      DropAbsent(n);
      WantFades(obj, u, n + 1);
    case _ =>
  }

  lemma {:induction false} PadLeads(doc: Value, n: nat)
    ensures Text(Pad(n)) == "" && At(doc, Pad(n)) == Drop(doc, n)
  {
    if n > 0 {
      PadLeads(doc, n - 1);
      assert Pad(n)[..|Pad(n)| - 1] == Pad(n - 1);
    }
  }

  /** A place with a given text at which the document has nothing. */
  lemma NothingThere(doc: Value, n: nat, text: string) returns (place: Place)
    requires Drop(doc, n) == Absent
    ensures Stands(doc, place, text, Absent)
  {
    place := Pad(n) + [Field(text)];
    PadLeads(doc, n);
    StepField(doc, Pad(n), "", Absent, text);
  }

  lemma FieldStands(doc: Value, text: string)
    ensures Stands(doc, [Field(text)], text, Get(doc, text))
  {
    StepField(doc, [], "", doc, text);
    assert [] + [Field(text)] == [Field(text)];
  }

  /** The values the aliased names have in the scenario: nothing for x, the wanted root for the others. */
  lemma ScenarioAgrees(aliases: Aliases, x: string, doc: Value, w: Value, hidden: Place, env: Env)
    requires Stands(doc, hidden, if x in aliases then aliases[x] else "", Absent)
    requires forall z | z in aliases && z != x :: Get(doc, aliases[z]) == w && z in env && env[z] == w
    requires x in env && env[x] == Absent
    ensures Agrees(aliases, map z | z in aliases :: if z == x then hidden else [Field(aliases[z])], env, doc)
  {
    forall z | z in aliases ensures Stands(doc, [Field(aliases[z])], aliases[z], Get(doc, aliases[z])) {
      FieldStands(doc, aliases[z]);
    }
  }

  /** Names, places, document and world that agree, in which x is absent and the expression has value t. */
  lemma Scenario(e: Expr, t: Value, x: string, aliases: Aliases)
    returns (env: Env, places: Places, doc: Value, world: World)
    requires Rooted(e, x) && t.Present? && t.fields == map[] && x in aliases
    ensures Agrees(aliases, places, env, doc) && At(doc, places[x]) == Absent
    ensures Eval(e, env, world) == Some(t)
  {
    var w := Want(e, t);
    var hidden;
    doc, hidden := ScenarioDocument(e, t, x, aliases);
    var names := aliases.Keys + if Base(e).Some? then {Base(e).value} else {};
    env := map z | z in names :: if z == x then Absent else w;
    world := (id: nat, en: Env) => Some(w);
    ScenarioAgrees(aliases, x, doc, w, hidden, env);
    places := map z | z in aliases :: if z == x then hidden else [Field(aliases[z])];
    RootIsNot(e, x);
    WantedValue(e, x, t, env, world);
  }

  /** A document that has the wanted root at the other aliases' paths, and a place of x's path where it has nothing. */
  lemma ScenarioDocument(e: Expr, t: Value, x: string, aliases: Aliases) returns (doc: Value, hidden: Place)
    requires Rooted(e, x) && t.Present? && t.fields == map[] && x in aliases
    ensures Stands(doc, hidden, aliases[x], Absent)
    ensures forall z | z in aliases && z != x :: Get(doc, aliases[z]) == Want(e, t)
  {
    var w := Want(e, t);
    var texts := set z | z in aliases && z != x :: aliases[z];
    doc := Present(map text | text in texts :: w, [], true);
    var n := 1 + Fields(e);
    WantFades(e, t, 1);
    DropFirst(doc, n);
    DropAbsent(n);
    hidden := NothingThere(doc, n + 1, aliases[x]);
  }

  lemma {:induction false} RootIsNot(e: Expr, x: string)
    requires Rooted(e, x)
    ensures Base(e) != Some(x)
  {
    match e
    case Wrapped(inner) => RootIsNot(inner, x);
    case Member(obj, _, _) => RootIsNot(obj, x);
    case Coalesce(left, _) => RootIsNot(left, x);
    case _ =>
  }

  lemma {:induction false} EmptyListValue(e: Expr, env: Env, world: World)
    requires IsEmptyList(e)
    ensures Eval(e, env, world) == Some(Present(map[], [], true))
  {
    match e
    case Wrapped(inner) => EmptyListValue(inner, env, world);
    case Coalesce(left, _) => EmptyListValue(left, env, world);
    case _ =>
  }

  /** Names that all have one value, the document's at their paths. */
  lemma AllTheSame(aliases: Aliases, v: Value) returns (env: Env, places: Places, doc: Value)
    ensures Agrees(aliases, places, env, doc) && forall z | z in aliases :: env[z] == v
  {
    var texts := set z | z in aliases :: aliases[z];
    doc := Present(map text | text in texts :: v, [], true);
    env := map z | z in aliases :: v;
    places := map z | z in aliases :: [Field(aliases[z])];
    forall z | z in aliases ensures Stands(doc, [Field(aliases[z])], aliases[z], v) {
      FieldStands(doc, aliases[z]);
    }
  }

  /** A declaration that hides an alias and leaves it unresolved breaks agreement somewhere. */
  lemma HidingBreaks(x: string, init: Option<Expr>, sc: Scope)
    requires !DeclareFits(x, init, sc.aliases) && (init.Some? ==> Rooted(init.value, x) || IsEmptyList(init.value))
    ensures !AlwaysAgrees(x, init, sc)
  {
    var leaf := Present(map[], [], true);
    var env, places, doc;
    var world: World := (id: nat, en: Env) => None;
    if init.None? {
      env, places, doc := AllTheSame(sc.aliases, leaf);
    } else if Rooted(init.value, x) {
      env, places, doc, world := Scenario(init.value, leaf, x, sc.aliases);
    } else {
      env, places, doc := AllTheSame(sc.aliases, Absent);
      EmptyListValue(init.value, env, world);
    }
    var r := Exec(Declare(x, init), env, sc, places, [], world);
    assert !Stands(doc, places[x], sc.aliases[x], r.end.value.0[x]);
  }

  /**
   * A declaration keeps agreement over all documents, names and worlds exactly when its name is no alias yet or
   * its initializer resolves. Only initializers that read the declared name itself, or a field of a list
   * literal, are not spoken of.
   */
  lemma DeclareExactly(x: string, init: Option<Expr>, sc: Scope)
    requires init.Some? ==> Rooted(init.value, x) || IsEmptyList(init.value)
    ensures AlwaysAgrees(x, init, sc) <==> DeclareFits(x, init, sc.aliases)
  {
    if DeclareFits(x, init, sc.aliases) {
      forall env: Env, places: Places, doc: Value, world: World | Agrees(sc.aliases, places, env, doc)
        ensures Continues(Exec(Declare(x, init), env, sc, places, [], world), After(Declare(x, init), sc).aliases, doc)
      {
        DeclareIsSound(Declare(x, init), env, sc, places, [], world, doc);
      }
    } else {
      HidingBreaks(x, init, sc);
    }
  }

  /** Those are left out because the equivalence fails for them: here the value is kept and nothing resolves. */
  lemma SelfReadKeeps(x: string, sc: Scope)
    requires x in sc.aliases
    ensures var init := Some(Coalesce(Ident(x), Ident(x)));
            AlwaysAgrees(x, init, sc) && !DeclareFits(x, init, sc.aliases)
  {
    var init := Some(Coalesce(Ident(x), Ident(x)));
    forall env: Env, places: Places, doc: Value, world: World | Agrees(sc.aliases, places, env, doc)
      ensures Continues(Exec(Declare(x, init), env, sc, places, [], world), After(Declare(x, init), sc).aliases, doc)
    {
      assert Eval(init.value, env, world) == Some(env[x]) && env[x := env[x]] == env;
    }
  }

  /** Loop variables likewise, for iterables whose fallbacks are empty. */
  lemma LoopExactly(x: string, items: Expr, sc: Scope)
    requires EmptyFallbacks(items) && Rooted(items, x)
    ensures RoundsAlwaysAgree(x, items, sc) <==> LoopFits(x, items, sc.aliases)
  {
    if LoopFits(x, items, sc.aliases) {
      forall env: Env, places: Places, doc: Value, world: World, i: nat
        ensures RoundAgrees(x, items, sc, env, places, doc, world, i)
      {
        RoundsFit(x, items, sc, env, places, doc, world, i);
      }
    } else {
      var leaf := Present(map[], [], true);
      var env, places, doc, world := Scenario(items, Present(map[], [leaf], true), x, sc.aliases);
      assert !Stands(doc, places[x], sc.aliases[x], leaf);
      assert !RoundAgrees(x, items, sc, env, places, doc, world, 0);
    }
  }

  lemma RoundsFit(x: string, items: Expr, sc: Scope, env: Env, places: Places, doc: Value, world: World, i: nat)
    requires EmptyFallbacks(items) && LoopFits(x, items, sc.aliases)
    ensures RoundAgrees(x, items, sc, env, places, doc, world, i)
  {
    var v := Eval(items, env, world);
    if Agrees(sc.aliases, places, env, doc) && v.Some? && v.value.Present? && i < |v.value.elements| {
      LoopElements(items, sc.aliases, places, env, doc, world);
      LoopAgreement(x, items, v.value.elements, i, env, sc, places, doc);
    }
  }

  // ---------- what the record says ----------

  /** A part of an expression, itself included. */
  ghost predicate Within(part: Expr, e: Expr) {
    part == e ||
    match e
    case Member(obj, _, _) => Within(part, obj)
    case Wrapped(inner) => Within(part, inner)
    case Coalesce(left, right) => Within(part, left) || Within(part, right)
    case Other(_, parts) => exists i | 0 <= i < |parts| :: Within(part, parts[i])
    case _ => false
  }

  /** Every collected path is what some part of the expression resolves to. */
  lemma {:induction false} CollectedPart(e: Expr, aliases: Aliases, path: string) returns (part: Expr)
    requires path in Collect(e, aliases)
    ensures Within(part, e) && Resolve(part, aliases) == Some(path) && path != ""
    decreases e, 1
  {
    if Resolve(e, aliases).Some? && Resolve(e, aliases).value != "" {
      part := e;
    } else {
      part := CollectedBelow(e, aliases, path);
    }
  }

  lemma {:induction false} CollectedBelow(e: Expr, aliases: Aliases, path: string) returns (part: Expr)
    requires path in CollectParts(e, aliases)
    ensures Within(part, e) && Resolve(part, aliases) == Some(path) && path != ""
    decreases e, 0
  {
    match e
    case Member(obj, _, _) => part := CollectedPart(obj, aliases, path);
    case Wrapped(inner) => part := CollectedPart(inner, aliases, path);
    case Coalesce(left, right) =>
      if path in Collect(left, aliases) {
        part := CollectedPart(left, aliases, path);
      } else {
        part := CollectedPart(right, aliases, path);
      }
    case Other(_, parts) =>
      var i :| 0 <= i < |parts| && path in Collect(parts[i], aliases);
      part := CollectedPart(parts[i], aliases, path);
  }

  /** And every part that resolves to a path below the document lies in one that was collected. */
  lemma {:induction false} PartIsCollected(e: Expr, part: Expr, aliases: Aliases) returns (outer: Expr)
    requires Within(part, e) && Resolve(part, aliases).Some? && Resolve(part, aliases).value != ""
    ensures Within(part, outer) && Within(outer, e)
    ensures Resolve(outer, aliases).Some? && Resolve(outer, aliases).value in Collect(e, aliases)
  {
    if Resolve(e, aliases).Some? && Resolve(e, aliases).value != "" {
      outer := e;
    } else {
      match e
      case Member(obj, _, _) => outer := PartIsCollected(obj, part, aliases);
      case Wrapped(inner) => outer := PartIsCollected(inner, part, aliases);
      case Coalesce(left, right) =>
        if Within(part, left) {
          outer := PartIsCollected(left, part, aliases);
        } else {
          outer := PartIsCollected(right, part, aliases);
        }
      case Other(_, parts) =>
        var i :| 0 <= i < |parts| && Within(part, parts[i]);
        outer := PartIsCollected(parts[i], part, aliases);
        assert outer in [outer];
    }
  }

  ghost predicate RecordHas(r: Record, heading: string, path: string) {
    heading in r && path in r[heading]
  }

  ghost predicate SitesHave(sites: seq<Site>, heading: string, path: string) {
    exists site :: site in sites && site.heading == heading && path in PathsOf(site)
  }

  /** A path is recorded under a label exactly when some recorded line of that label reads it. */
  lemma {:induction false} RecordedExactly(r: Record, sites: seq<Site>, heading: string, path: string)
    ensures RecordHas(Recorded(r, sites), heading, path)
      <==> RecordHas(r, heading, path) || SitesHave(sites, heading, path)
    decreases |sites|
  {
    if sites != [] {
      var site := sites[0];
      var before := if site.heading in r then r[site.heading] else {};
      RecordedExactly(r[site.heading := before + PathsOf(site)], sites[1..], heading, path);
      assert sites == [site] + sites[1..];
      if SitesHave(sites[1..], heading, path) {
        var other :| other in sites[1..] && other.heading == heading && path in PathsOf(other);
        assert other in sites;
      }
    }
  }

  /** The path is what a part of the line, or of a condition around it, resolves to. */
  ghost predicate IsReadAt(site: Site, path: string) {
    exists whole: Expr, part: Expr ::
      (whole == site.shown || whole in site.controls) && Within(part, whole)
      && Resolve(part, site.aliases) == Some(path)
  }

  lemma PathHasPart(site: Site, path: string)
    requires path in PathsOf(site)
    ensures IsReadAt(site, path)
  {
    if Collect(site.shown, site.aliases) != {} {
      var part := CollectedPart(site.shown, site.aliases, path);
    } else {
      var i :| 0 <= i < |site.controls| && path in Collect(site.controls[i], site.aliases);
      var part := CollectedPart(site.controls[i], site.aliases, path);
      assert site.controls[i] in site.controls;
    }
  }

  const START := Scope(map["status" := ""], None)

  /**
   * The record of a formatter body is sound. Whatever line a run shows under a label, each path of that line is
   * in the label's record and is what a part of the line, or of a condition around it, resolves to; and any
   * expression that resolves to the path there has, when it has a value, the document's value at the place it
   * stands for, loop variables standing for the element of their round.
   */
  lemma RecordIsSound(body: seq<Stmt>, doc: Value, world: World, v: Visit, path: string)
    requires FitsAll(body, START)
    requires v in ExecAll(body, map["status" := doc], START, map["status" := []], [], world).visits
    requires path in PathsOf(v.site)
    ensures RecordHas(Recorded(map[], SitesAll(body, START, [])), v.site.heading, path)
    ensures IsReadAt(v.site, path)
    ensures forall e: Expr | Resolve(e, v.site.aliases) == Some(path) && Eval(e, v.env, world).Some? ::
              Stands(doc, PlaceOf(e, v.places), path, Eval(e, v.env, world).value)
  {
    assert Agrees(START.aliases, map["status" := []], map["status" := doc], doc);
    ExecAllIsSound(body, map["status" := doc], START, map["status" := []], [], world, doc);
    RecordedExactly(map[], SitesAll(body, START, []), v.site.heading, path);
    PathHasPart(v.site, path);
    forall e: Expr | Resolve(e, v.site.aliases) == Some(path) && Eval(e, v.env, world).Some?
      ensures Stands(doc, PlaceOf(e, v.places), path, Eval(e, v.env, world).value)
    {
      ResolvedValue(e, v.site.aliases, v.places, v.env, doc, world);
    }
  }

  /** A formatter that declares a name again inside a block: the inner line reads what a call returned. */
  function Hiding(): seq<Stmt> {
    [Declare("a", Some(Member(Ident("status"), "x", false))), Block(HidingBlock())]
  }

  function HidingBlock(): seq<Stmt> {
    [Declare("a", Some(Other(0, []))), Push(Line(Some("L"), Ident("a")))]
  }

  /** Its run shows, under a label recorded with path x, a value the document does not have at x. */
  lemma HidingShowsAnotherValue(doc: Value, world: World, shown: Value)
    requires doc.Present? && Get(doc, "x") != shown && forall env: Env :: world(0, env) == Some(shown)
    ensures !FitsAll(Hiding(), START)
    ensures exists v :: v in ExecAll(Hiding(), map["status" := doc], START, map["status" := []], [], world).visits
                        && v.site.heading == "L" && ShowsAnother(doc, world, "x", shown, v)
  {
    var v := HidingRuns(doc, world, shown);
    FieldStands(doc, "x");
    assert Collect(Ident("a"), v.site.aliases) == {"x"};
    assert ShowsAnother(doc, world, "x", shown, v);
  }

  /** The line is recorded with the path, and what it shows is not what the document has there. */
  ghost predicate ShowsAnother(doc: Value, world: World, path: string, shown: Value, v: Visit) {
    path in PathsOf(v.site) && Resolve(v.site.shown, v.site.aliases) == Some(path)
    && Eval(v.site.shown, v.env, world) == Some(shown)
    && !Stands(doc, PlaceOf(v.site.shown, v.places), path, shown)
  }

  /** The visit of the inner line, and that the formatter does not fit. */
  lemma HidingRuns(doc: Value, world: World, shown: Value) returns (v: Visit)
    requires doc.Present? && forall env: Env :: world(0, env) == Some(shown)
    ensures !FitsAll(Hiding(), START)
    ensures v in ExecAll(Hiding(), map["status" := doc], START, map["status" := []], [], world).visits
    ensures v.site == Site("L", Ident("a"), map["status" := "", "a" := "x"], [])
    ensures v.env == map["status" := doc, "a" := shown] && v.places == map["status" := [], "a" := [Field("x")]]
  {
    var env, places := map["status" := doc], map["status" := []];
    var sc := Scope(map["status" := "", "a" := "x"], None);
    var e1, p1 := env["a" := Get(doc, "x")], places["a" := [Field("x")]];
    HidingStarts(doc, world);
    v := HidingVisit(e1, sc, p1, world, shown);
    assert e1["a" := shown] == map["status" := doc, "a" := shown];
    var block := Block(HidingBlock());
    assert Hiding()[1..] == [block] && [block][1..] == [];
    assert v in Exec(block, e1, sc, p1, [], world).visits;
    assert v in ExecAll([block], e1, sc, p1, [], world).visits;
    assert !FitsAll([block], sc);
  }

  /** The outer declaration: the name stands for the document's field. */
  lemma HidingStarts(doc: Value, world: World)
    requires doc.Present?
    ensures var env, places := map["status" := doc], map["status" := []];
            && Exec(Hiding()[0], env, START, places, [], world)
               == Run([], Some((env["a" := Get(doc, "x")], places["a" := [Field("x")]])))
            && After(Hiding()[0], START) == Scope(map["status" := "", "a" := "x"], None)
  {
    var env := map["status" := doc];
    assert [] + [Field("x")] == [Field("x")];
    assert Eval(Member(Ident("status"), "x", false), env, world) == Some(Get(doc, "x"));
  }

  lemma HidingVisit(env: Env, sc: Scope, places: Places, world: World, shown: Value) returns (v: Visit)
    requires sc.aliases.Keys == {"status", "a"} && world(0, env) == Some(shown)
    ensures v == Visit(Site("L", Ident("a"), sc.aliases, []), env["a" := shown], places)
    ensures v in ExecAll(HidingBlock(), env, sc, places, [], world).visits
    ensures !FitsAll(HidingBlock(), sc)
  {
    v := Visit(Site("L", Ident("a"), sc.aliases, []), env["a" := shown], places);
    var declare, push := HidingBlock()[0], HidingBlock()[1];
    assert Exec(declare, env, sc, places, [], world) == Run([], Some((env["a" := shown], places)));
    assert HidingBlock()[1..] == [push] && [push][1..] == [];
    assert v in Exec(push, env["a" := shown], After(declare, sc), places, [], world).visits;
    assert v in ExecAll([push], env["a" := shown], After(declare, sc), places, [], world).visits;
  }
}
