/**
 * The turn evidence of the parity run: turns are derived from the lifecycle rows and the raw broker
 * rows of one ledger join, and every completion in either source is counted as an effect.
 */
module TurnEvidence {

  /** A JSON identity: absent, or a string. */
  datatype Id = Missing | Text(s: string)

  datatype Fence = Fence(runtime: Id, scope: Id, lane: Id, generation: int)

  datatype LifeKind = Completed | Message | OtherLife

  /** A lifecycle row; `words` is the message content, which only a message has. */
  datatype LifeRow = LifeRow(at: nat, kind: LifeKind, fence: Fence, invocation: Id, turn: Id, final: bool, words: Id)

  datatype RawKind = RawCompleted | RawMessage | OtherRaw

  /** A broker row; `words` is its text parts joined. */
  datatype RawRow = RawRow(runtime: Id, kind: RawKind, invocation: Id, turn: Id, final: bool, words: string)

  /** One serialized turn observation; `final` marks the message of a pair, otherwise it is the terminal. */
  datatype Turn = Turn(identity: Id, invocation: Id, fence: Fence, final: bool, words: string, at: nat)

  datatype Source = Lifecycle | Broker

  datatype Effect = Effect(key: string, invocation: Id, turn: Id, source: Source, count: nat)

  // ---------- turns ----------

  /** Rows come in the order of their sequence number, which is unique and counts from one. */
  ghost predicate Ordered(life: seq<LifeRow>) {
    && (forall i | 0 <= i < |life| :: life[i].at > 0)
    && forall i, j | 0 <= i < j < |life| :: life[i].at < life[j].at
  }

  predicate InWindow(r: LifeRow, fence: Fence, low: nat, high: nat) {
    r.kind.Message? && r.fence == fence && low < r.at < high && r.final
  }

  function FinalMessages(life: seq<LifeRow>, fence: Fence, low: nat, high: nat): seq<LifeRow> {
    if life == [] then []
    else
      FinalMessages(life[..|life| - 1], fence, low, high)
      + if InWindow(life[|life| - 1], fence, low, high) then [life[|life| - 1]] else []
  }

  function RawFor(broker: seq<RawRow>, terminal: LifeRow, kind: RawKind): seq<RawRow> {
    if broker == [] then []
    else
      var r := broker[|broker| - 1];
      RawFor(broker[..|broker| - 1], terminal, kind)
      + if && r.runtime == terminal.fence.runtime && r.invocation == terminal.invocation
           && r.turn == terminal.turn && r.kind == kind && (kind.RawCompleted? || r.final)
        then [r] else []
  }

  /** The sequence number of the last terminal of a fence, zero when there is none. */
  function LastTerminal(life: seq<LifeRow>, fence: Fence): nat {
    if life == [] then 0
    else if life[|life| - 1].kind.Completed? && life[|life| - 1].fence == fence then life[|life| - 1].at
    else LastTerminal(life[..|life| - 1], fence)
  }

  /** Everything the terminal at `i` may be paired with. */
  function Window(life: seq<LifeRow>, i: nat): seq<LifeRow>
    requires i < |life|
  {
    FinalMessages(life, life[i].fence, LastTerminal(life[..i], life[i].fence), life[i].at)
  }

  function TurnOf(terminal: LifeRow, row: LifeRow, final: bool): Turn {
    Turn(terminal.turn, terminal.invocation, row.fence, final,
         if final && row.words.Text? then row.words.s else "", row.at)
  }

  predicate Named(x: Id) {
    x.Text? && x.s != ""
  }

  /** What the row at `i` adds: its message and itself, or nothing. */
  function PairAt(life: seq<LifeRow>, broker: seq<RawRow>, i: nat): seq<Turn>
    requires i < |life|
  {
    if !life[i].kind.Completed? then []
    else
      var finals := RawFor(broker, life[i], RawMessage);
      if || |Window(life, i)| != 1 || |finals| != 1 || |RawFor(broker, life[i], RawCompleted)| != 1
         || Window(life, i)[0].words != Text(finals[0].words) || !Named(life[i].invocation) || !Named(life[i].turn)
      then []
      else [TurnOf(life[i], Window(life, i)[0], true), TurnOf(life[i], life[i], false)]
  }

  function Turns(life: seq<LifeRow>, broker: seq<RawRow>, n: nat): seq<Turn>
    requires n <= |life|
  {
    if n == 0 then [] else Turns(life, broker, n - 1) + PairAt(life, broker, n - 1)
  }

  function Before(previous: map<Fence, nat>, fence: Fence): nat {
    if fence in previous then previous[fence] else 0
  }

  /** The map of previous terminals holds the last one of every fence. */
  ghost predicate Tracks(previous: map<Fence, nat>, life: seq<LifeRow>) {
    forall f: Fence :: Before(previous, f) == LastTerminal(life, f)
  }

  lemma TracksOne(previous: map<Fence, nat>, life: seq<LifeRow>, i: nat)
    requires i < |life| && Tracks(previous, life[..i])
    ensures Tracks(if life[i].kind.Completed? then previous[life[i].fence := life[i].at] else previous, life[..i + 1])
  {
    assert life[..i + 1][..i] == life[..i] && life[..i + 1][i] == life[i];
  }

  method DeriveTurns(life: seq<LifeRow>, broker: seq<RawRow>) returns (events: seq<Turn>)
    ensures events == Turns(life, broker, |life|)
  {
    events := [];
    var previous: map<Fence, nat> := map[];
    for i := 0 to |life|
      invariant events == Turns(life, broker, i)
      invariant Tracks(previous, life[..i])
    {
      TracksOne(previous, life, i);
      var terminal := life[i];
      if terminal.kind.Completed? {
        var low := Before(previous, terminal.fence);
        assert low == LastTerminal(life[..i], terminal.fence);
        var messages := FinalMessages(life, terminal.fence, low, terminal.at);
        var rawFinals := RawFor(broker, terminal, RawMessage);
        var rawTerminals := RawFor(broker, terminal, RawCompleted);
        previous := previous[terminal.fence := terminal.at];
        if |messages| == 1 && |rawFinals| == 1 && |rawTerminals| == 1 {
          var message := messages[0];
          if message.words == Text(rawFinals[0].words) && Named(terminal.invocation) && Named(terminal.turn) {
            events := events + [TurnOf(terminal, message, true), TurnOf(terminal, terminal, false)];
          }
        }
      }
    }
  }

  lemma {:induction false} WindowHas(life: seq<LifeRow>, fence: Fence, low: nat, high: nat, r: LifeRow)
    requires r in FinalMessages(life, fence, low, high)
    ensures r in life && InWindow(r, fence, low, high)
    decreases |life|
  {
    var front := life[..|life| - 1];
    if r in FinalMessages(front, fence, low, high) {
      WindowHas(front, fence, low, high, r);
    }
  }

  lemma {:induction false} LastTerminalIsLast(life: seq<LifeRow>, i: nat)
    requires Ordered(life) && i < |life| && life[i].kind.Completed?
    ensures life[i].at <= LastTerminal(life, life[i].fence)
    decreases |life|
  {
    var front := life[..|life| - 1];
    if i < |front| {
      LastTerminalIsLast(front, i);
      assert front[i] == life[i];
    }
  }

  lemma {:induction false} WindowTakes(life: seq<LifeRow>, fence: Fence, low: nat, high: nat, r: LifeRow)
    requires r in life && InWindow(r, fence, low, high)
    ensures r in FinalMessages(life, fence, low, high)
    decreases |life|
  {
    var n := |life| - 1;
    assert life == life[..n] + [life[n]];
    if r in life[..n] { WindowTakes(life[..n], fence, low, high, r); }
  }

  lemma {:induction false} LastTerminalIsOne(life: seq<LifeRow>, fence: Fence)
    ensures LastTerminal(life, fence) == 0
         || exists j | 0 <= j < |life| ::
              life[j].kind.Completed? && life[j].fence == fence && LastTerminal(life, fence) == life[j].at
    decreases |life|
  {
    if life != [] {
      var front := life[..|life| - 1];
      LastTerminalIsOne(front, fence);
      if j :| 0 <= j < |front| && front[j].kind.Completed? && front[j].fence == fence
              && LastTerminal(front, fence) == front[j].at {
        assert life[j] == front[j];
      }
    }
  }

  /** A window holds exactly the final messages of its fence after every earlier terminal of that fence. */
  lemma {:induction false} WindowExactly(life: seq<LifeRow>, i: nat, r: LifeRow)
    requires Ordered(life) && i < |life|
    ensures r in Window(life, i)
      <==> (&& r in life && r.kind.Message? && r.final && r.fence == life[i].fence && r.at < life[i].at
            && forall j | 0 <= j < i && life[j].kind.Completed? && life[j].fence == life[i].fence :: life[j].at < r.at)
  {
    var fence, low := life[i].fence, LastTerminal(life[..i], life[i].fence);
    if r in Window(life, i) {
      WindowHas(life, fence, low, life[i].at, r);
      forall j | 0 <= j < i && life[j].kind.Completed? && life[j].fence == fence ensures life[j].at < r.at {
        LastTerminalIsLast(life[..i], j);
      }
    }
    if && r in life && r.kind.Message? && r.final && r.fence == fence && r.at < life[i].at
       && forall j | 0 <= j < i && life[j].kind.Completed? && life[j].fence == fence :: life[j].at < r.at
    {
      LastTerminalIsOne(life[..i], fence);
      WindowTakes(life, fence, low, life[i].at, r);
    }
  }

  /** The windows of two terminals have no message in common, whatever their fences. */
  lemma {:induction false} WindowsAreDisjoint(life: seq<LifeRow>, i: nat, j: nat, r: LifeRow)
    requires Ordered(life) && i < j < |life| && life[i].kind.Completed? && life[j].kind.Completed?
    ensures !(r in Window(life, i) && r in Window(life, j))
  {
    if r in Window(life, i) && r in Window(life, j) {
      WindowHas(life, life[i].fence, LastTerminal(life[..i], life[i].fence), life[i].at, r);
      WindowHas(life, life[j].fence, LastTerminal(life[..j], life[j].fence), life[j].at, r);
      LastTerminalIsLast(life[..j], i);
      assert false;
    }
  }

  /** Without the order of the query two terminals can claim the same message. */
  lemma UnorderedWindowsOverlap(f: Fence)
    ensures exists life: seq<LifeRow>, r ::
      && |life| == 4 && life[1].kind.Completed? && life[3].kind.Completed?
      && r in Window(life, 1) && r in Window(life, 3)
  {
    var r := LifeRow(2, Message, f, Missing, Missing, true, Text("OK"));
    var t := LifeRow(5, Completed, f, Text("i"), Text("t"), false, Missing);
    var u := LifeRow(1, Completed, f, Text("i"), Text("u"), false, Missing);
    var v := LifeRow(4, Completed, f, Text("i"), Text("v"), false, Missing);
    var life := [r, t, u, v];
    assert life[..1] == [r];
    assert life[..3] == [r, t, u];
    FirstInWindow(r, [t, u, v], f, 0, 5);
    FirstInWindow(r, [t, u, v], f, 1, 4);
    assert life == [r] + [t, u, v];
    assert LastTerminal([r], f) == 0;
    var before := [r, t, u];
    assert before[|before| - 1] == u && LastTerminal(before, f) == 1;
    assert r in Window(life, 1) && r in Window(life, 3);
  }

  lemma {:induction false} FirstInWindow(r: LifeRow, rest: seq<LifeRow>, fence: Fence, low: nat, high: nat)
    requires InWindow(r, fence, low, high)
    ensures r in FinalMessages([r] + rest, fence, low, high)
    decreases |rest|
  {
    if rest == [] {
      assert [r] + rest == [r];
    } else {
      var front := rest[..|rest| - 1];
      assert ([r] + rest)[..|rest|] == [r] + front;
      FirstInWindow(r, front, fence, low, high);
    }
  }

  /** A row adds nothing, or a message from its window and then itself. */
  lemma PairShape(life: seq<LifeRow>, broker: seq<RawRow>, i: nat)
    requires i < |life| && PairAt(life, broker, i) != []
    ensures |PairAt(life, broker, i)| == 2 && life[i].kind.Completed? && |Window(life, i)| == 1
    ensures forall k | 0 <= k < 2 ::
              var e := PairAt(life, broker, i)[k];
              && (e.final <==> k == 0) && e.identity == life[i].turn && e.invocation == life[i].invocation
              && e.fence == life[i].fence && e.at == if e.final then Window(life, i)[0].at else life[i].at
  {
    var m := Window(life, i)[0];
    WindowHas(life, life[i].fence, LastTerminal(life[..i], life[i].fence), life[i].at, m);
  }

  lemma {:induction false} TurnsGrow(life: seq<LifeRow>, broker: seq<RawRow>, i: nat, j: nat)
    requires i < j <= |life|
    ensures |Turns(life, broker, i)| + |PairAt(life, broker, i)| <= |Turns(life, broker, j)|
    decreases j
  {
    if i + 1 < j { TurnsGrow(life, broker, i, j - 1); }
  }

  lemma InFirstOrSecond<T>(x: seq<T>, y: seq<T>, a: nat)
    requires a < |x + y|
    ensures (x + y)[a] == if a < |x| then x[a] else y[a - |x|]
  {
  }

  /** The row a derived turn was made from, and which of its two turns it is. */
  lemma {:induction false} TurnHasRow(life: seq<LifeRow>, broker: seq<RawRow>, n: nat, a: nat) returns (i: nat, k: nat)
    requires n <= |life| && a < |Turns(life, broker, n)|
    ensures i < n && k < |PairAt(life, broker, i)| && a == |Turns(life, broker, i)| + k
    ensures Turns(life, broker, n)[a] == PairAt(life, broker, i)[k]
    decreases n
  {
    var before, pair := Turns(life, broker, n - 1), PairAt(life, broker, n - 1);
    InFirstOrSecond(before, pair, a);
    if a < |before| {
      i, k := TurnHasRow(life, broker, n - 1, a);
    } else {
      i, k := n - 1, a - |before|;
    }
  }

  /** The terminal a derived message was paired with: the message is the one row of its window. */
  lemma MessageHasWindow(life: seq<LifeRow>, broker: seq<RawRow>, a: nat) returns (i: nat)
    requires a < |Turns(life, broker, |life|)| && Turns(life, broker, |life|)[a].final
    ensures i < |life| && life[i].kind.Completed? && |Window(life, i)| == 1
    ensures a == |Turns(life, broker, i)| && Turns(life, broker, |life|)[a].at == Window(life, i)[0].at
  {
    var k;
    i, k := TurnHasRow(life, broker, |life|, a);
    PairShape(life, broker, i);
  }

  lemma WindowRow(life: seq<LifeRow>, i: nat)
    requires i < |life| && Window(life, i) != []
    ensures Window(life, i)[0] in life
  {
    WindowHas(life, life[i].fence, LastTerminal(life[..i], life[i].fence), life[i].at, Window(life, i)[0]);
  }

  /** Windows of one row each that show the same row are one window. */
  lemma SameWindow(life: seq<LifeRow>, i: nat, j: nat)
    requires Ordered(life) && i < |life| && j < |life| && life[i].kind.Completed? && life[j].kind.Completed?
    requires |Window(life, i)| == 1 && |Window(life, j)| == 1 && Window(life, i)[0].at == Window(life, j)[0].at
    ensures i == j
  {
    var m := Window(life, i)[0];
    WindowRow(life, i);
    WindowRow(life, j);
    assert m == Window(life, j)[0];
    if i < j { WindowsAreDisjoint(life, i, j, m); }
    if j < i { WindowsAreDisjoint(life, j, i, m); }
  }

  /** No final message is paired with two terminals: the derived messages are rows of their own. */
  lemma {:induction false} NoMessageTwice(life: seq<LifeRow>, broker: seq<RawRow>, a: nat, b: nat)
    requires Ordered(life) && a < b < |Turns(life, broker, |life|)|
    requires Turns(life, broker, |life|)[a].final && Turns(life, broker, |life|)[b].final
    ensures Turns(life, broker, |life|)[a].at != Turns(life, broker, |life|)[b].at
  {
    var i := MessageHasWindow(life, broker, a);
    var j := MessageHasWindow(life, broker, b);
    if Window(life, i)[0].at == Window(life, j)[0].at { SameWindow(life, i, j); }
  }

  // ---------- effects ----------

  function Shown(x: Id): string {
    if x.Text? then x.s else "None"
  }

  function LifeKey(invocation: Id, turn: Id): string {
    Shown(invocation) + ":" + Shown(turn)
  }

  function RawKey(invocation: Id, turn: Id): string {
    "raw:" + LifeKey(invocation, turn)
  }

  /** The counter of the lifecycle rows, which keeps its pairs in the order they first appear. */
  function CountPair(counts: seq<Effect>, invocation: Id, turn: Id): seq<Effect> {
    if counts == [] then [Effect(LifeKey(invocation, turn), invocation, turn, Lifecycle, 1)]
    else if counts[0].invocation == invocation && counts[0].turn == turn
    then [counts[0].(count := counts[0].count + 1)] + counts[1..]
    else [counts[0]] + CountPair(counts[1..], invocation, turn)
  }

  /** A raw completion joins the first effect with its key, whatever source that has. */
  function CountRaw(effects: seq<Effect>, key: string, invocation: Id, turn: Id): seq<Effect> {
    if effects == [] then [Effect(key, invocation, turn, Broker, 1)]
    else if effects[0].key == key
    then [effects[0].(count := effects[0].count + 1)] + effects[1..]
    else [effects[0]] + CountRaw(effects[1..], key, invocation, turn)
  }

  function LifeEffects(life: seq<LifeRow>): seq<Effect> {
    if life == [] then []
    else
      var r := life[|life| - 1];
      var before := LifeEffects(life[..|life| - 1]);
      if r.kind.Completed? then CountPair(before, r.invocation, r.turn) else before
  }

  function Effects(life: seq<LifeRow>, broker: seq<RawRow>): seq<Effect> {
    if broker == [] then LifeEffects(life)
    else
      var r := broker[|broker| - 1];
      var before := Effects(life, broker[..|broker| - 1]);
      if r.kind.RawCompleted? then CountRaw(before, RawKey(r.invocation, r.turn), r.invocation, r.turn) else before
  }

  method DeriveEffects(life: seq<LifeRow>, broker: seq<RawRow>) returns (effects: seq<Effect>)
    ensures effects == Effects(life, broker)
  {
    effects := [];
    for i := 0 to |life|
      invariant effects == LifeEffects(life[..i])
    {
      assert life[..i + 1][..i] == life[..i];
      if life[i].kind.Completed? {
        effects := CountPair(effects, life[i].invocation, life[i].turn);
      }
    }
    assert life[..|life|] == life;
    for i := 0 to |broker|
      invariant effects == Effects(life, broker[..i])
    {
      assert broker[..i + 1][..i] == broker[..i];
      if broker[i].kind.RawCompleted? {
        effects := AddRaw(effects, RawKey(broker[i].invocation, broker[i].turn), broker[i].invocation, broker[i].turn);
      }
    }
    assert broker[..|broker|] == broker;
  }

  method AddRaw(effects: seq<Effect>, key: string, invocation: Id, turn: Id) returns (r: seq<Effect>)
    ensures r == CountRaw(effects, key, invocation, turn)
  {
    var i := 0;
    while i < |effects| && effects[i].key != key
      invariant i <= |effects|
      invariant forall k | 0 <= k < i :: effects[k].key != key
    {
      i := i + 1;
    }
    CountRawSkips(effects, i, key, invocation, turn);
    if i < |effects| {
      r := effects[i := effects[i].(count := effects[i].count + 1)];
    } else {
      r := effects + [Effect(key, invocation, turn, Broker, 1)];
    }
  }

  lemma {:induction false} CountRawSkips(effects: seq<Effect>, i: nat, key: string, invocation: Id, turn: Id)
    requires i <= |effects| && forall k | 0 <= k < i :: effects[k].key != key
    ensures i == |effects| ==>
      CountRaw(effects, key, invocation, turn) == effects + [Effect(key, invocation, turn, Broker, 1)]
    ensures i < |effects| && effects[i].key == key ==>
      CountRaw(effects, key, invocation, turn) == effects[i := effects[i].(count := effects[i].count + 1)]
  {
    if i > 0 {
      CountRawSkips(effects[1..], i - 1, key, invocation, turn);
    }
  }

  // ---------- what an accepted set of effects says ----------

  /** The checks on effects: some effect, each key present once, each count exactly one. */
  ghost predicate Accepted(effects: seq<Effect>) {
    && effects != []
    && DistinctKeys(effects)
    && forall e | e in effects :: e.key != "" && e.count == 1
  }

  /** One key per completion row, in both sources. */
  function LifeKeys(life: seq<LifeRow>): multiset<string> {
    if life == [] then multiset{}
    else
      var r := life[|life| - 1];
      LifeKeys(life[..|life| - 1]) + if r.kind.Completed? then multiset{LifeKey(r.invocation, r.turn)} else multiset{}
  }

  function RawKeys(broker: seq<RawRow>): multiset<string> {
    if broker == [] then multiset{}
    else
      var r := broker[|broker| - 1];
      RawKeys(broker[..|broker| - 1])
      + if r.kind.RawCompleted? then multiset{RawKey(r.invocation, r.turn)} else multiset{}
  }

  /** The counts of the effects as a multiset of keys. */
  function KeyCounts(effects: seq<Effect>): multiset<string> {
    if effects == [] then multiset{} else KeyCounts(effects[1..]) + multiset{}[effects[0].key := effects[0].count]
  }

  lemma {:induction false} CountPairCounts(counts: seq<Effect>, invocation: Id, turn: Id)
    requires forall e | e in counts :: e.key == LifeKey(e.invocation, e.turn) && e.count > 0
    ensures KeyCounts(CountPair(counts, invocation, turn)) == KeyCounts(counts) + multiset{LifeKey(invocation, turn)}
    ensures forall e | e in CountPair(counts, invocation, turn) :: e.key == LifeKey(e.invocation, e.turn) && e.count > 0
  {
    if counts != [] {
      var r := CountPair(counts, invocation, turn);
      if counts[0].invocation == invocation && counts[0].turn == turn {
        assert r[1..] == counts[1..];
      } else {
        CountPairCounts(counts[1..], invocation, turn);
        assert r[1..] == CountPair(counts[1..], invocation, turn);
      }
    }
  }

  lemma {:induction false} CountRawCounts(effects: seq<Effect>, key: string, invocation: Id, turn: Id)
    requires key != "" && forall e | e in effects :: e.key != "" && e.count > 0
    ensures KeyCounts(CountRaw(effects, key, invocation, turn)) == KeyCounts(effects) + multiset{key}
    ensures forall e | e in CountRaw(effects, key, invocation, turn) :: e.key != "" && e.count > 0
  {
    if effects != [] {
      var r := CountRaw(effects, key, invocation, turn);
      if effects[0].key == key {
        assert r[1..] == effects[1..];
      } else {
        CountRawCounts(effects[1..], key, invocation, turn);
        assert r[1..] == CountRaw(effects[1..], key, invocation, turn);
      }
    }
  }

  lemma {:induction false} LifeCounts(life: seq<LifeRow>)
    ensures KeyCounts(LifeEffects(life)) == LifeKeys(life)
    ensures forall e | e in LifeEffects(life) :: e.key == LifeKey(e.invocation, e.turn) && e.count > 0
  {
    if life != [] {
      LifeCounts(life[..|life| - 1]);
      var r := life[|life| - 1];
      if r.kind.Completed? {
        CountPairCounts(LifeEffects(life[..|life| - 1]), r.invocation, r.turn);
      }
    }
  }

  /** Nothing is lost or counted twice: per key, the effects add up to the completion rows of both sources. */
  lemma {:induction false} EffectsConserveRows(life: seq<LifeRow>, broker: seq<RawRow>)
    ensures KeyCounts(Effects(life, broker)) == LifeKeys(life) + RawKeys(broker)
    ensures forall e | e in Effects(life, broker) :: e.key != "" && e.count > 0
  {
    if broker == [] {
      LifeCounts(life);
    } else {
      EffectsConserveRows(life, broker[..|broker| - 1]);
      var r := broker[|broker| - 1];
      if r.kind.RawCompleted? {
        CountRawCounts(Effects(life, broker[..|broker| - 1]), RawKey(r.invocation, r.turn), r.invocation, r.turn);
      }
    }
  }

  /** The effect is named after a completion row of its source. */
  ghost predicate NamedAfter(e: Effect, life: seq<LifeRow>, broker: seq<RawRow>) {
    match e.source
    case Lifecycle =>
      e.key == LifeKey(e.invocation, e.turn)
      && exists r :: r in life && r.kind.Completed? && r.invocation == e.invocation && r.turn == e.turn
    case Broker =>
      e.key == RawKey(e.invocation, e.turn)
      && exists r :: r in broker && r.kind.RawCompleted? && r.invocation == e.invocation && r.turn == e.turn
  }

  lemma {:induction false} CountPairEffects(counts: seq<Effect>, invocation: Id, turn: Id, e: Effect)
    requires e in CountPair(counts, invocation, turn)
    ensures (exists was :: was in counts && was.(count := e.count) == e)
            || e == Effect(LifeKey(invocation, turn), invocation, turn, Lifecycle, 1)
  {
    if counts != [] {
      assert counts[0] in counts;
      if counts[0].invocation == invocation && counts[0].turn == turn {
        if e in counts[1..] { assert e in counts; }
      } else if e != counts[0] {
        CountPairEffects(counts[1..], invocation, turn, e);
        assert forall x | x in counts[1..] :: x in counts;
      }
    }
  }

  lemma {:induction false} CountRawEffects(effects: seq<Effect>, key: string, invocation: Id, turn: Id, e: Effect)
    requires e in CountRaw(effects, key, invocation, turn)
    ensures (exists was :: was in effects && was.(count := e.count) == e)
            || e == Effect(key, invocation, turn, Broker, 1)
  {
    if effects != [] {
      assert effects[0] in effects;
      if effects[0].key == key {
        if e in effects[1..] { assert e in effects; }
      } else if e != effects[0] {
        CountRawEffects(effects[1..], key, invocation, turn, e);
        assert forall x | x in effects[1..] :: x in effects;
      }
    }
  }

  lemma {:induction false} LifeEffectsNamed(life: seq<LifeRow>, e: Effect)
    requires e in LifeEffects(life)
    ensures NamedAfter(e, life, []) && e.source.Lifecycle?
    decreases |life|
  {
    var front, r := life[..|life| - 1], life[|life| - 1];
    if r.kind.Completed? {
      CountPairEffects(LifeEffects(front), r.invocation, r.turn, e);
      if was :| was in LifeEffects(front) && was.(count := e.count) == e {
        LifeEffectsNamed(front, was);
      }
    } else {
      LifeEffectsNamed(front, e);
    }
  }

  /** Every effect carries the invocation and turn of a completion row of its source, and the key made of them. */
  lemma {:induction false} EffectsAreNamed(life: seq<LifeRow>, broker: seq<RawRow>, e: Effect)
    requires e in Effects(life, broker)
    ensures NamedAfter(e, life, broker)
    decreases |broker|
  {
    if broker == [] {
      LifeEffectsNamed(life, e);
    } else {
      var front, r := broker[..|broker| - 1], broker[|broker| - 1];
      if r.kind.RawCompleted? {
        CountRawEffects(Effects(life, front), RawKey(r.invocation, r.turn), r.invocation, r.turn, e);
        if was :| was in Effects(life, front) && was.(count := e.count) == e {
          EffectsAreNamed(life, front, was);
        }
      } else {
        EffectsAreNamed(life, front, e);
      }
    }
  }

  ghost predicate AtMostOnce(keys: multiset<string>) {
    forall k :: keys[k] <= 1
  }

  lemma {:induction false} KeyCounted(effects: seq<Effect>, i: nat)
    requires i < |effects| && effects[i].count > 0
    ensures effects[i].key in KeyCounts(effects)
  {
    if i > 0 { KeyCounted(effects[1..], i - 1); }
  }

  lemma {:induction false} CountedKey(effects: seq<Effect>, k: string) returns (i: nat)
    requires k in KeyCounts(effects)
    ensures i < |effects| && effects[i].key == k
  {
    if effects[0].key == k {
      i := 0;
    } else {
      i := CountedKey(effects[1..], k);
      i := i + 1;
    }
  }

  ghost predicate DistinctKeys(effects: seq<Effect>) {
    forall i, j | 0 <= i < j < |effects| :: effects[i].key != effects[j].key
  }

  lemma {:induction false} DistinctOnes(effects: seq<Effect>)
    requires DistinctKeys(effects) && forall e | e in effects :: e.count == 1
    ensures AtMostOnce(KeyCounts(effects))
  {
    if effects != [] {
      DistinctOnes(effects[1..]);
      if effects[0].key in KeyCounts(effects[1..]) {
        var i := CountedKey(effects[1..], effects[0].key);
      }
    }
  }

  lemma {:induction false} OnceIsDistinct(effects: seq<Effect>)
    requires AtMostOnce(KeyCounts(effects)) && forall e | e in effects :: e.count > 0
    ensures DistinctKeys(effects) && forall e | e in effects :: e.count == 1
  {
    if effects != [] {
      var rest := effects[1..];
      var head := effects[0];
      assert effects == [head] + rest;
      assert KeyCounts(effects)[head.key] == KeyCounts(rest)[head.key] + head.count;
      assert AtMostOnce(KeyCounts(rest)) by {
        forall k ensures KeyCounts(rest)[k] <= 1 {
          assert KeyCounts(rest)[k] <= KeyCounts(effects)[k];
        }
      }
      OnceIsDistinct(rest);
      forall i | 0 <= i < |rest| ensures rest[i].key != head.key {
        KeyCounted(rest, i);
      }
    }
  }

  /** The effects pass exactly when there is a completion and no two completion rows share a key. */
  lemma AcceptedExactlyWhenKeysDiffer(life: seq<LifeRow>, broker: seq<RawRow>)
    ensures Accepted(Effects(life, broker))
      <==> (LifeKeys(life) + RawKeys(broker) != multiset{} && AtMostOnce(LifeKeys(life) + RawKeys(broker)))
  {
    var effects := Effects(life, broker);
    EffectsConserveRows(life, broker);
    if effects != [] {
      KeyCounted(effects, 0);
    }
    if Accepted(effects) {
      DistinctOnes(effects);
    } else if AtMostOnce(KeyCounts(effects)) {
      OnceIsDistinct(effects);
    }
  }

  lemma {:induction false} LifeRowsCounted(life: seq<LifeRow>, i: nat, j: nat)
    requires i < j < |life| && life[i].kind.Completed? && life[j].kind.Completed?
    requires life[i].invocation == life[j].invocation && life[i].turn == life[j].turn
    ensures LifeKeys(life)[LifeKey(life[i].invocation, life[i].turn)] >= 2
  {
    var front := life[..|life| - 1];
    if j < |front| {
      LifeRowsCounted(front, i, j);
    } else {
      LifeRowCounted(front, i);
    }
  }

  lemma {:induction false} LifeRowCounted(life: seq<LifeRow>, i: nat)
    requires i < |life| && life[i].kind.Completed?
    ensures LifeKey(life[i].invocation, life[i].turn) in LifeKeys(life)
  {
    if i < |life| - 1 { LifeRowCounted(life[..|life| - 1], i); }
  }

  lemma {:induction false} RawRowsCounted(broker: seq<RawRow>, i: nat, j: nat)
    requires i < j < |broker| && broker[i].kind.RawCompleted? && broker[j].kind.RawCompleted?
    requires broker[i].invocation == broker[j].invocation && broker[i].turn == broker[j].turn
    ensures RawKeys(broker)[RawKey(broker[i].invocation, broker[i].turn)] >= 2
  {
    var front := broker[..|broker| - 1];
    if j < |front| {
      RawRowsCounted(front, i, j);
    } else {
      RawRowCounted(front, i);
    }
  }

  lemma {:induction false} RawRowCounted(broker: seq<RawRow>, i: nat)
    requires i < |broker| && broker[i].kind.RawCompleted?
    ensures RawKey(broker[i].invocation, broker[i].turn) in RawKeys(broker)
  {
    if i < |broker| - 1 { RawRowCounted(broker[..|broker| - 1], i); }
  }

  /** Accepted effects mean exactly once: no turn completes twice in either ledger, whatever the identities. */
  lemma {:induction false} AcceptedMeansExactlyOnce(life: seq<LifeRow>, broker: seq<RawRow>)
    requires Accepted(Effects(life, broker))
    ensures forall i, j | 0 <= i < j < |life| && life[i].kind.Completed? && life[j].kind.Completed? ::
              life[i].invocation != life[j].invocation || life[i].turn != life[j].turn
    ensures forall i, j | 0 <= i < j < |broker| && broker[i].kind.RawCompleted? && broker[j].kind.RawCompleted? ::
              broker[i].invocation != broker[j].invocation || broker[i].turn != broker[j].turn
  {
    AcceptedExactlyWhenKeysDiffer(life, broker);
    forall i, j | 0 <= i < j < |life| && life[i].kind.Completed? && life[j].kind.Completed?
      ensures life[i].invocation != life[j].invocation || life[i].turn != life[j].turn
    {
      if life[i].invocation == life[j].invocation && life[i].turn == life[j].turn {
        LifeRowsCounted(life, i, j);
        assert (LifeKeys(life) + RawKeys(broker))[LifeKey(life[i].invocation, life[i].turn)] <= 1;
      }
    }
    forall i, j | 0 <= i < j < |broker| && broker[i].kind.RawCompleted? && broker[j].kind.RawCompleted?
      ensures broker[i].invocation != broker[j].invocation || broker[i].turn != broker[j].turn
    {
      if broker[i].invocation == broker[j].invocation && broker[i].turn == broker[j].turn {
        RawRowsCounted(broker, i, j);
        assert (LifeKeys(life) + RawKeys(broker))[RawKey(broker[i].invocation, broker[i].turn)] <= 1;
      }
    }
  }

  /** The converse fails: joined with a colon, two different turns can share a key. */
  lemma ColonsCollide(f: Fence)
    ensures var a := LifeRow(1, Completed, f, Text("a:b"), Text("c"), false, Missing);
            var b := LifeRow(2, Completed, f, Text("a"), Text("b:c"), false, Missing);
            (a.invocation, a.turn) != (b.invocation, b.turn) && !Accepted(Effects([a, b], []))
  {
    var a := LifeRow(1, Completed, f, Text("a:b"), Text("c"), false, Missing);
    var b := LifeRow(2, Completed, f, Text("a"), Text("b:c"), false, Missing);
    assert LifeKey(a.invocation, a.turn) == "a:b:c" == LifeKey(b.invocation, b.turn);
    assert [a, b][..1] == [a];
    assert LifeKeys([a, b]) == LifeKeys([a]) + multiset{"a:b:c"};
    LifeRowCounted([a], 0);
    AcceptedExactlyWhenKeysDiffer([a, b], []);
    assert (LifeKeys([a, b]) + RawKeys([]))["a:b:c"] >= 2;
  }

  /** An absent identity has the key of one that is called None, and a raw key that of a turn whose name starts so. */
  lemma NamesCollide(invocation: string, turn: Id)
    ensures LifeKey(Missing, turn) == LifeKey(Text("None"), turn)
    ensures RawKey(Text(invocation), turn) == LifeKey(Text("raw:" + invocation), turn)
  {
    var colon := ":" + Shown(turn);
    assert "raw:" + (invocation + colon) == "raw:" + invocation + colon;
    assert invocation + ":" + Shown(turn) == invocation + colon;
    assert "raw:" + invocation + ":" + Shown(turn) == "raw:" + invocation + colon;
  }

  /** The correlation the terminal check asks of a message and a terminal. */
  predicate Correlated(m: Turn, t: Turn) {
    !t.final && t.identity == m.identity && t.invocation == m.invocation && t.fence == m.fence
  }

  /**
   * Accepted effects imply the terminal check: every derived message has one correlated terminal among
   * the derived turns, the one derived with it, and no other.
   */
  lemma MessageHasOneTerminal(life: seq<LifeRow>, broker: seq<RawRow>, a: nat, b: nat)
    requires Accepted(Effects(life, broker))
    requires a < |Turns(life, broker, |life|)| && b < |Turns(life, broker, |life|)|
    requires Turns(life, broker, |life|)[a].final
    ensures Correlated(Turns(life, broker, |life|)[a], Turns(life, broker, |life|)[b]) <==> b == a + 1
    ensures a + 1 < |Turns(life, broker, |life|)|
  {
    var i, k := TurnHasRow(life, broker, |life|, a);
    var j, l := TurnHasRow(life, broker, |life|, b);
    PairShape(life, broker, i);
    PairShape(life, broker, j);
    AcceptedMeansExactlyOnce(life, broker);
    TurnsGrow(life, broker, i, |life|);
    if i < j { TurnsGrow(life, broker, i, j); }
    if j < i { TurnsGrow(life, broker, j, i); }
  }

  // ---------- when a turn is derived ----------

  /** Positions: a terminal, its message, and the final message and the completion that the broker has for it. */
  datatype Proof = Proof(terminal: nat, message: nat, raw: nat, end: nat)

  /** The row at `j` ends the turn before the one the row at `i` ends. */
  predicate EndsBefore(life: seq<LifeRow>, j: nat, i: nat)
    requires i < |life|
  {
    && j < i && life[j].kind.Completed? && life[j].fence == life[i].fence
    && forall k | j < k < i :: !(life[k].kind.Completed? && life[k].fence == life[i].fence)
  }

  /** The final messages of the row's fence between the end of the turn before and the row. */
  function Candidates(life: seq<LifeRow>, i: nat): set<nat>
    requires i < |life|
  {
    set m: nat | && m < |life| && life[m].kind.Message? && life[m].final && life[m].fence == life[i].fence
                 && 0 < life[m].at < life[i].at
                 && forall j: nat | j < i && EndsBefore(life, j, i) :: life[j].at < life[m].at
  }

  predicate OfTurn(r: RawRow, terminal: LifeRow) {
    r.runtime == terminal.fence.runtime && r.invocation == terminal.invocation && r.turn == terminal.turn
  }

  function RawFinals(broker: seq<RawRow>, terminal: LifeRow): set<nat> {
    set r: nat | r < |broker| && OfTurn(broker[r], terminal) && broker[r].kind.RawMessage? && broker[r].final
  }

  function RawEnds(broker: seq<RawRow>, terminal: LifeRow): set<nat> {
    set r: nat | r < |broker| && OfTurn(broker[r], terminal) && broker[r].kind.RawCompleted?
  }

  /** One message, one raw final and one raw completion for a terminal that names its turn, and the texts agree. */
  ghost predicate Proves(life: seq<LifeRow>, broker: seq<RawRow>, p: Proof) {
    && p.terminal < |life|
    && var t := life[p.terminal];
       && t.kind.Completed? && t.invocation.Text? && t.invocation.s != "" && t.turn.Text? && t.turn.s != ""
       && Candidates(life, p.terminal) == {p.message}
       && RawFinals(broker, t) == {p.raw} && RawEnds(broker, t) == {p.end}
       && p.message in Candidates(life, p.terminal) && p.raw in RawFinals(broker, t)
       && life[p.message].words == Text(broker[p.raw].words)
  }

  /** The events show, for each proof in the order of the terminals, the message with the raw text and the terminal. */
  ghost predicate Serialized(events: seq<Turn>, life: seq<LifeRow>, broker: seq<RawRow>, proofs: seq<Proof>) {
    && |events| == 2 * |proofs|
    && (forall k | 0 <= k < |proofs| ::
          Proves(life, broker, proofs[k]) && Serializes(events, life, broker, proofs[k], k))
    && forall k, l | 0 <= k < l < |proofs| :: proofs[k].terminal < proofs[l].terminal
  }

  ghost predicate Serializes(events: seq<Turn>, life: seq<LifeRow>, broker: seq<RawRow>, p: Proof, k: nat)
    requires 2 * k + 1 < |events| && Proves(life, broker, p)
  {
    var t := life[p.terminal];
    && events[2 * k] == Turn(t.turn, t.invocation, t.fence, true, broker[p.raw].words, life[p.message].at)
    && events[2 * k + 1] == Turn(t.turn, t.invocation, t.fence, false, "", t.at)
  }

  /** The sequence lists the set in order. */
  ghost predicate Lists(places: seq<nat>, all: set<nat>) {
    && (forall k, l | 0 <= k < l < |places| :: places[k] < places[l])
    && forall m: nat :: m in places <==> m in all
  }

  lemma ListsOneMore(places: seq<nat>, all: set<nat>, n: nat)
    requires Lists(places, all) && forall m | m in all :: m < n
    ensures Lists(places + [n], all + {n})
  {
    forall k | 0 <= k < |places| ensures places[k] < n { assert places[k] in places; }
  }

  lemma ListOfOne(places: seq<nat>, all: set<nat>, m: nat)
    requires Lists(places, all) && all == {m}
    ensures places == [m]
  {
    if |places| > 1 { assert places[0] < places[1]; }
    forall k | 0 <= k < |places| ensures places[k] == m { assert places[k] in places; }
    assert m in places;
  }

  lemma OneListed(places: seq<nat>, all: set<nat>)
    requires Lists(places, all) && |places| == 1
    ensures all == {places[0]}
  {
    forall x: nat ensures x in all <==> x == places[0] { assert x in places <==> x in all; }
  }

  function FinalSet(life: seq<LifeRow>, fence: Fence, low: nat, high: nat): set<nat> {
    set m: nat | m < |life| && InWindow(life[m], fence, low, high)
  }

  predicate RawMatches(r: RawRow, terminal: LifeRow, kind: RawKind) {
    OfTurn(r, terminal) && r.kind == kind && (kind.RawCompleted? || r.final)
  }

  function RawSet(broker: seq<RawRow>, terminal: LifeRow, kind: RawKind): set<nat> {
    set r: nat | r < |broker| && RawMatches(broker[r], terminal, kind)
  }

  lemma RawSetGrows(broker: seq<RawRow>, terminal: LifeRow, kind: RawKind)
    requires broker != []
    ensures var n := |broker| - 1;
            RawSet(broker, terminal, kind)
            == RawSet(broker[..n], terminal, kind) + if RawMatches(broker[n], terminal, kind) then {n} else {}
  {
  }

  /** The rows are the ones at these places. */
  ghost predicate RowsAt<T>(rows: seq<T>, all: seq<T>, places: seq<nat>) {
    |rows| == |places| && forall k | 0 <= k < |places| :: places[k] < |all| && rows[k] == all[places[k]]
  }

  lemma RowsAtMore<T>(rows: seq<T>, all: seq<T>, places: seq<nat>, n: nat)
    requires n < |all| && RowsAt(rows, all[..n], places)
    ensures RowsAt(rows, all, places) && RowsAt(rows + [all[n]], all, places + [n])
  {
  }

  lemma {:induction false} FinalPlaces(life: seq<LifeRow>, fence: Fence, low: nat, high: nat) returns (places: seq<nat>)
    ensures Lists(places, FinalSet(life, fence, low, high))
    ensures RowsAt(FinalMessages(life, fence, low, high), life, places)
    decreases |life|
  {
    if life == [] {
      places := [];
    } else {
      var n := |life| - 1;
      var before := FinalPlaces(life[..n], fence, low, high);
      var all := FinalSet(life[..n], fence, low, high);
      ListsOneMore(before, all, n);
      RowsAtMore(FinalMessages(life[..n], fence, low, high), life, before, n);
      assert FinalSet(life, fence, low, high) == if InWindow(life[n], fence, low, high) then all + {n} else all;
      places := if InWindow(life[n], fence, low, high) then before + [n] else before;
    }
  }

  lemma {:induction false} RawPlaces(broker: seq<RawRow>, terminal: LifeRow, kind: RawKind) returns (places: seq<nat>)
    ensures Lists(places, RawSet(broker, terminal, kind))
    ensures RowsAt(RawFor(broker, terminal, kind), broker, places)
    decreases |broker|
  {
    if broker == [] {
      places := [];
    } else {
      var n := |broker| - 1;
      var before := RawPlaces(broker[..n], terminal, kind);
      var all := RawSet(broker[..n], terminal, kind);
      ListsOneMore(before, all, n);
      RowsAtMore(RawFor(broker[..n], terminal, kind), broker, before, n);
      RawSetGrows(broker, terminal, kind);
      places := if RawMatches(broker[n], terminal, kind) then before + [n] else before;
    }
  }

  lemma {:induction false} LastTerminalAt(life: seq<LifeRow>, i: nat, n: nat, x: nat)
    requires x > 0 && n <= i < |life|
    requires forall k | n <= k < i :: !(life[k].kind.Completed? && life[k].fence == life[i].fence)
    ensures LastTerminal(life[..n], life[i].fence) < x
            <==> forall j: nat | j < i && EndsBefore(life, j, i) :: life[j].at < x
    decreases n
  {
    if n > 0 {
      var front := life[..n];
      assert front[..n - 1] == life[..n - 1] && front[|front| - 1] == life[n - 1];
      if life[n - 1].kind.Completed? && life[n - 1].fence == life[i].fence {
        assert EndsBefore(life, n - 1, i);
        forall j: nat | j < i && EndsBefore(life, j, i) ensures j == n - 1 {
          assert life[j].kind.Completed? && life[j].fence == life[i].fence;
        }
      } else {
        LastTerminalAt(life, i, n - 1, x);
      }
    }
  }

  lemma WindowPlaces(life: seq<LifeRow>, i: nat) returns (places: seq<nat>)
    requires i < |life|
    ensures Lists(places, Candidates(life, i)) && RowsAt(Window(life, i), life, places)
  {
    var fence, low := life[i].fence, LastTerminal(life[..i], life[i].fence);
    places := FinalPlaces(life, fence, low, life[i].at);
    forall m: nat | m < |life| && life[m].at > 0
      ensures InWindow(life[m], fence, low, life[i].at) <==> m in Candidates(life, i)
    {
      LastTerminalAt(life, i, i, life[m].at);
    }
    assert FinalSet(life, fence, low, life[i].at) == Candidates(life, i);
  }

  lemma OneProof(life: seq<LifeRow>, broker: seq<RawRow>, p: Proof, q: Proof)
    requires Proves(life, broker, p) && Proves(life, broker, q) && p.terminal == q.terminal
    ensures p == q
  {
    var t := life[p.terminal];
    assert q.message in Candidates(life, p.terminal) && q.raw in RawFinals(broker, t);
    assert q.end in RawEnds(broker, t) by { assert q.end in {q.end}; }
  }

  /** The row at `i` adds its pair exactly when there is a proof for it. */
  lemma PairExactly(life: seq<LifeRow>, broker: seq<RawRow>, i: nat) returns (p: Proof)
    requires i < |life|
    ensures PairAt(life, broker, i) == [] ==> forall q: Proof | q.terminal == i :: !Proves(life, broker, q)
    ensures PairAt(life, broker, i) != [] ==>
              p.terminal == i && Proves(life, broker, p)
              && |PairAt(life, broker, i)| == 2 && Serializes(PairAt(life, broker, i), life, broker, p, 0)
  {
    var t := life[i];
    var messages := WindowPlaces(life, i);
    var finals := RawPlaces(broker, t, RawMessage);
    var ends := RawPlaces(broker, t, RawCompleted);
    assert RawSet(broker, t, RawMessage) == RawFinals(broker, t);
    assert RawSet(broker, t, RawCompleted) == RawEnds(broker, t);
    forall q: Proof | q.terminal == i && Proves(life, broker, q)
      ensures messages == [q.message] && finals == [q.raw] && ends == [q.end]
    {
      ListOfOne(messages, Candidates(life, i), q.message);
      ListOfOne(finals, RawFinals(broker, t), q.raw);
      ListOfOne(ends, RawEnds(broker, t), q.end);
    }
    p := Proof(i, 0, 0, 0);
    if |messages| == 1 && |finals| == 1 && |ends| == 1 {
      p := Proof(i, messages[0], finals[0], ends[0]);
      OneListed(messages, Candidates(life, i));
      OneListed(finals, RawFinals(broker, t));
      OneListed(ends, RawEnds(broker, t));
    }
  }

  lemma SerializedOneMore(events: seq<Turn>, life: seq<LifeRow>, broker: seq<RawRow>, proofs: seq<Proof>,
                          pair: seq<Turn>, p: Proof)
    requires Serialized(events, life, broker, proofs)
    requires |pair| == 2 && Proves(life, broker, p) && Serializes(pair, life, broker, p, 0)
    requires forall k | 0 <= k < |proofs| :: proofs[k].terminal < p.terminal
    ensures Serialized(events + pair, life, broker, proofs + [p])
  {
    var n := |proofs|;
    forall k | 0 <= k < n + 1 ensures Serializes(events + pair, life, broker, (proofs + [p])[k], k) {
      if k < n {
        assert Serializes(events, life, broker, proofs[k], k);
      }
    }
  }

  ghost predicate AllProofs(proofs: seq<Proof>, life: seq<LifeRow>, broker: seq<RawRow>, n: nat) {
    forall p: Proof :: p in proofs <==> p.terminal < n && Proves(life, broker, p)
  }

  lemma EarlierProofs(proofs: seq<Proof>, life: seq<LifeRow>, broker: seq<RawRow>, n: nat)
    requires AllProofs(proofs, life, broker, n)
    ensures forall k | 0 <= k < |proofs| :: proofs[k].terminal < n
  {
    forall k | 0 <= k < |proofs| ensures proofs[k].terminal < n { assert proofs[k] in proofs; }
  }

  lemma NoProofMore(proofs: seq<Proof>, life: seq<LifeRow>, broker: seq<RawRow>, n: nat)
    requires AllProofs(proofs, life, broker, n) && forall q: Proof | q.terminal == n :: !Proves(life, broker, q)
    ensures AllProofs(proofs, life, broker, n + 1)
  {
  }

  lemma AllProofsOneMore(proofs: seq<Proof>, life: seq<LifeRow>, broker: seq<RawRow>, n: nat, p: Proof)
    requires AllProofs(proofs, life, broker, n) && p.terminal == n && Proves(life, broker, p)
    ensures AllProofs(proofs + [p], life, broker, n + 1)
  {
    forall q: Proof | q.terminal == n && Proves(life, broker, q) ensures q == p { OneProof(life, broker, q, p); }
  }

  lemma {:induction false} TurnsSerialize(life: seq<LifeRow>, broker: seq<RawRow>, n: nat) returns (proofs: seq<Proof>)
    requires n <= |life|
    ensures Serialized(Turns(life, broker, n), life, broker, proofs) && AllProofs(proofs, life, broker, n)
    decreases n
  {
    if n == 0 {
      proofs := [];
    } else {
      var before := TurnsSerialize(life, broker, n - 1);
      var p := PairExactly(life, broker, n - 1);
      EarlierProofs(before, life, broker, n - 1);
      if PairAt(life, broker, n - 1) == [] {
        proofs := before;
        NoProofMore(before, life, broker, n - 1);
        assert Turns(life, broker, n) == Turns(life, broker, n - 1);
      } else {
        SerializedOneMore(Turns(life, broker, n - 1), life, broker, before, PairAt(life, broker, n - 1), p);
        AllProofsOneMore(before, life, broker, n - 1, p);
        proofs := before + [p];
      }
    }
  }

  /**
   * The derived events are, in the order of their terminals, exactly the proven pairs: a terminal that names its
   * invocation and turn, the one final message of its fence since the turn before, the one raw final and the one raw
   * completion of that runtime, invocation and turn, and equal texts.
   */
  lemma TurnsExactly(life: seq<LifeRow>, broker: seq<RawRow>) returns (proofs: seq<Proof>)
    ensures Serialized(Turns(life, broker, |life|), life, broker, proofs)
    ensures forall p: Proof :: p in proofs <==> Proves(life, broker, p)
  {
    proofs := TurnsSerialize(life, broker, |life|);
  }
}
