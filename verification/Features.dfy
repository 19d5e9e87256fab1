/** The feature table and its cursor (`features.h`, MSG_FEATURE_* in `bidib_client_parser.c`). */
module Features {
  import opened Bytes

  datatype Feature = Feature(num: nat, value: nat, min: nat, max: nat)

  const NUM_OF_FEATURES: nat := 4
  const NO_MORE: nat := 255

  const NUMS: seq<nat> := [252, 251, 254, 253]

  function InitialTable(): (t: seq<Feature>)
    ensures |t| == NUM_OF_FEATURES
  {
    [Feature(252, 24, 24, 24), Feature(251, 0, 0, 1), Feature(254, 0, 0, 1), Feature(253, 16, 1, 16)]
  }

  /** `cursor` is `bidib_feature2send`, `streaming` is `featureStreaming`. */
  datatype State = State(table: seq<Feature>, cursor: nat, streaming: nat)

  /** Messages about features, passes of the main loop, and what resets the cursor: a logon acknowledge rewinds it,
      losing the connection or MSG_SYS_DISABLE ends it. */
  datatype Event = GetAll(mode: nat) | GetNext | Get(num: nat) | Set(num: nat, value: nat) | Pass | LoggedOn | Disabled

  datatype Reply = Count(streaming: nat) | Value(num: nat, value: nat) | NotAvailable(num: nat)

  /** Each value in its range, the numbers and ranges as at the start. */
  predicate WellFormed(s: State) {
    && |s.table| == NUM_OF_FEATURES && s.cursor <= NUM_OF_FEATURES
    && (forall i :: 0 <= i < NUM_OF_FEATURES ==>
          && s.table[i].min <= s.table[i].value <= s.table[i].max
          && s.table[i] == InitialTable()[i].(value := s.table[i].value))
  }

  /** The lowest index of feature `num`, or the table's length. */
  function IndexOf(table: seq<Feature>, num: nat): (i: nat)
    ensures i <= |table|
    ensures i < |table| ==> table[i].num == num
    ensures forall j :: 0 <= j < i ==> table[j].num != num
  {
    if table == [] || table[0].num == num then 0 else 1 + IndexOf(table[1..], num)
  }

  function Clamp(v: nat, low: nat, high: nat): (r: nat)
    requires low <= high
    ensures low <= r <= high && (low <= v <= high ==> r == v)
  {
    if v < low then low else if v > high then high else v
  }

  function NextFeature(s: State): (r: (State, Option<Reply>))
    requires WellFormed(s)
    ensures WellFormed(r.0)
  {
    if s.cursor < NUM_OF_FEATURES then
      (s.(cursor := s.cursor + 1), Some(Value(s.table[s.cursor].num, s.table[s.cursor].value)))
    else (s, Some(NotAvailable(NO_MORE)))
  }

  function Step(s: State, e: Event): (r: (State, Option<Reply>))
    requires WellFormed(s)
    ensures WellFormed(r.0)
  {
    match e
    case GetAll(mode) => (s.(cursor := 0, streaming := mode), Some(Count(mode)))
    case GetNext => NextFeature(s)
    case Get(num) =>
      var i := IndexOf(s.table, num);
      (s, Some(if i < |s.table| then Value(num, s.table[i].value) else NotAvailable(num)))
    case Set(num, value) =>
      var i := IndexOf(s.table, num);
      if i == |s.table| then (s, Some(NotAvailable(num)))
      else
        var v := Clamp(value, s.table[i].min, s.table[i].max);
        (s.(table := s.table[i := s.table[i].(value := v)]), Some(Value(num, v)))
    case Pass => if s.streaming == 1 && s.cursor < NUM_OF_FEATURES then NextFeature(s) else (s, None)
    case LoggedOn => (s.(cursor := 0, streaming := 0), None)
    case Disabled => (s.(cursor := NUM_OF_FEATURES, streaming := 0), None)
  }

  function Run(es: seq<Event>): (s: State)
    ensures WellFormed(s)
  {
    if es == [] then State(InitialTable(), 0, 0) else Step(Run(es[..|es| - 1]), es[|es| - 1]).0
  }

  // ---- Values ----

  /** The value of a feature in terms of the history alone: the last one set, clamped to the feature's range. */
  function LastSet(es: seq<Event>, f: Feature): nat
    requires f.min <= f.max
  {
    if es == [] then f.value
    else
      match es[|es| - 1]
      case Set(num, value) => if num == f.num then Clamp(value, f.min, f.max) else LastSet(es[..|es| - 1], f)
      case _ => LastSet(es[..|es| - 1], f)
  }

  lemma IndexOfNum(s: State, i: nat)
    requires WellFormed(s) && i < NUM_OF_FEATURES
    ensures IndexOf(s.table, InitialTable()[i].num) == i
  {
    assert forall j :: 0 <= j < i ==> InitialTable()[j].num != InitialTable()[i].num;
    assert s.table[i].num == InitialTable()[i].num;
  }

  lemma SetChangesOne(s: State, num: nat, value: nat, i: nat)
    requires WellFormed(s) && i < NUM_OF_FEATURES
    ensures var f := InitialTable()[i];
      Step(s, Set(num, value)).0.table[i].value == if num == f.num then Clamp(value, f.min, f.max) else s.table[i].value
  {
    IndexOfNum(s, i);
  }

  lemma OthersKeepTable(s: State, e: Event)
    requires WellFormed(s) && !e.Set?
    ensures Step(s, e).0.table == s.table
  {
  }

  lemma {:induction false} RunValue(es: seq<Event>, i: nat)
    requires i < NUM_OF_FEATURES
    ensures Run(es).table[i].value == LastSet(es, InitialTable()[i])
  {
    if es != [] {
      var before, e := Run(es[..|es| - 1]), es[|es| - 1];
      RunValue(es[..|es| - 1], i);
      if e.Set? {
        SetChangesOne(before, e.num, e.value, i);
      } else {
        OthersKeepTable(before, e);
      }
    }
  }

  /** Over every run each feature has the last value set, clamped, and a GET tells exactly that. */
  lemma ValueIsLastSet(es: seq<Event>, i: nat)
    requires i < NUM_OF_FEATURES
    ensures var f := InitialTable()[i];
      && Run(es).table[i].value == LastSet(es, f)
      && Step(Run(es), Get(f.num)).1 == Some(Value(f.num, LastSet(es, f)))
  {
    RunValue(es, i);
    IndexOfNum(Run(es), i);
  }

  /** The replies: a SET of a known feature echoes the value it has from then on, and GET tells it; for any other number
      both are answered by NA and change nothing. */
  lemma RepliesExactly(es: seq<Event>, num: nat, value: nat)
    ensures forall i :: 0 <= i < 4 && num == [252, 251, 254, 253][i] ==>
      var f := InitialTable()[i];
      && Step(Run(es), Set(num, value)).1 == Some(Value(num, LastSet(es + [Set(num, value)], f)))
      && Step(Run(es), Get(num)).1 == Some(Value(num, LastSet(es, f)))
    ensures num !in {251, 252, 253, 254} ==>
      && Step(Run(es), Set(num, value)) == (Run(es), Some(NotAvailable(num)))
      && Step(Run(es), Get(num)) == (Run(es), Some(NotAvailable(num)))
  {
    forall i | 0 <= i < 4 && num == [252, 251, 254, 253][i]
      ensures var f := InitialTable()[i];
        && Step(Run(es), Set(num, value)).1 == Some(Value(num, LastSet(es + [Set(num, value)], f)))
        && Step(Run(es), Get(num)).1 == Some(Value(num, LastSet(es, f)))
    {
      EchoTellsValue(es, num, value, i);
    }
    if num !in {251, 252, 253, 254} {
      UnknownFeature(Run(es), num);
    }
  }

  /** What a SET of each of the four features makes of a value, and what they tell before any. */
  lemma RangesExactly(es: seq<Event>, v: nat)
    ensures Step(Run(es), Set(252, v)).1 == Some(Value(252, 24))
    ensures Step(Run(es), Set(251, v)).1 == Some(Value(251, if v == 0 then 0 else 1))
    ensures Step(Run(es), Set(254, v)).1 == Some(Value(254, if v == 0 then 0 else 1))
    ensures Step(Run(es), Set(253, v)).1 == Some(Value(253, if v == 0 then 1 else if v > 16 then 16 else v))
    ensures [InitialTable()[0].value, InitialTable()[1].value, InitialTable()[2].value, InitialTable()[3].value]
         == [24, 0, 0, 16]
  {
    RangeOf(es, v, 0);
    RangeOf(es, v, 1);
    RangeOf(es, v, 2);
    RangeOf(es, v, 3);
  }

  lemma RangeOf(es: seq<Event>, v: nat, i: nat)
    requires i < NUM_OF_FEATURES
    ensures var f := InitialTable()[i]; Step(Run(es), Set(f.num, v)).1 == Some(Value(f.num, Clamp(v, f.min, f.max)))
  {
    var f := InitialTable()[i];
    EchoTellsValue(es, f.num, v, i);
    assert (es + [Set(f.num, v)])[..|es|] == es;
  }

  lemma EchoTellsValue(es: seq<Event>, num: nat, value: nat, i: nat)
    requires i < NUM_OF_FEATURES && InitialTable()[i].num == num
    ensures Step(Run(es), Set(num, value)).1 == Some(Value(num, LastSet(es + [Set(num, value)], InitialTable()[i])))
    ensures Step(Run(es), Get(num)).1 == Some(Value(num, LastSet(es, InitialTable()[i])))
  {
    ValueIsLastSet(es, i);
    IndexOfNum(Run(es), i);
    assert (es + [Set(num, value)])[..|es|] == es;
    assert Run(es).table[i] == InitialTable()[i].(value := Run(es).table[i].value);
  }

  lemma UnknownFeature(s: State, num: nat)
    requires WellFormed(s) && num !in {251, 252, 253, 254}
    ensures IndexOf(s.table, num) == |s.table|
  {
    forall i | 0 <= i < |s.table| ensures s.table[i].num != num {
      assert s.table[i].num == InitialTable()[i].num;
    }
  }

  /** The main loop is silent unless the host asked for streaming and features are left; GETNEXT tells the end by NA of
      255; GETALL is answered by the mode. */
  lemma CursorReplies(s: State, mode: nat)
    requires WellFormed(s)
    ensures s.streaming != 1 || s.cursor == 4 ==> Step(s, Pass) == (s, None)
    ensures s.streaming == 1 && s.cursor < 4 ==> Step(s, Pass) == Step(s, GetNext)
    ensures s.cursor == 4 ==> Step(s, GetNext) == (s, Some(NotAvailable(255)))
    ensures s.cursor < 4 ==>
      var told := Value([252, 251, 254, 253][s.cursor], s.table[s.cursor].value);
      Step(s, GetNext) == (s.(cursor := s.cursor + 1), Some(told))
    ensures Step(s, GetAll(mode)) == (s.(cursor := 0, streaming := mode), Some(Count(mode)))
    ensures Step(s, LoggedOn) == (s.(cursor := 0, streaming := 0), None)
    ensures Step(s, Disabled) == (s.(cursor := 4, streaming := 0), None)
  {
    if s.cursor < 4 {
      NextTells(s);
    }
  }

  // ---- The cursor ----

  /** The features told since the cursor was last rewound, by streaming or by MSG_FEATURE_GETNEXT. */
  function Told(es: seq<Event>): seq<nat> {
    if es == [] then [] else ToldWith(Told(es[..|es| - 1]), Run(es[..|es| - 1]), es[|es| - 1])
  }

  function ToldWith(told: seq<nat>, s: State, e: Event): seq<nat>
    requires WellFormed(s)
  {
    if e.GetAll? || e.LoggedOn? then []
    else
      var reply := Step(s, e).1;
      if (e.Pass? || e.GetNext?) && reply.Some? && reply.value.Value? then told + [reply.value.num] else told
  }

  ghost predicate InCursorOrder(told: seq<nat>, s: State, ended: bool) {
    told <= NUMS && if ended then s.cursor == NUM_OF_FEATURES else |told| == s.cursor
  }

  lemma TellsInOrder(told: seq<nat>, s: State, ended: bool, e: Event)
    requires WellFormed(s) && InCursorOrder(told, s, ended)
    ensures InCursorOrder(ToldWith(told, s, e), Step(s, e).0,
                          !e.GetAll? && !e.LoggedOn? && (e.Disabled? || ended))
  {
    NextTells(s);
  }

  /** The cursor was ended and not rewound since. */
  predicate Ended(es: seq<Event>) {
    es != [] && !es[|es| - 1].GetAll? && !es[|es| - 1].LoggedOn? && (es[|es| - 1].Disabled? || Ended(es[..|es| - 1]))
  }

  lemma NextTells(s: State)
    requires WellFormed(s)
    ensures s.cursor < NUM_OF_FEATURES ==>
      NextFeature(s).1 == Some(Value(NUMS[s.cursor], s.table[s.cursor].value)) && |NUMS| == NUM_OF_FEATURES
  {
    if s.cursor < NUM_OF_FEATURES {
      assert s.table[s.cursor].num == NUMS[s.cursor];
    }
  }

  /** However streaming, GETNEXT and other messages interleave, the features told are a prefix of the table, each
      once and in order, as far as the cursor says; after an end none is told. */
  lemma {:induction false} ToldInOrder(es: seq<Event>)
    ensures Told(es) <= NUMS
    ensures if Ended(es) then Run(es).cursor == NUM_OF_FEATURES else |Told(es)| == Run(es).cursor
  {
    if es != [] {
      var p := es[..|es| - 1];
      ToldInOrder(p);
      TellsInOrder(Told(p), Run(p), Ended(p), es[|es| - 1]);
    }
  }

  function Turn(e: Event): nat {
    if e.Pass? || e.GetNext? then 1 else 0
  }

  /** Passes of the main loop and GETNEXT messages. */
  function Turns(es: seq<Event>): nat {
    if es == [] then 0
    else Turns(es[..|es| - 1]) + Turn(es[|es| - 1])
  }

  predicate Rewinds(e: Event) {
    e.GetAll? || e.LoggedOn? || e.Disabled?
  }

  lemma StreamStep(s: State, e: Event)
    requires WellFormed(s) && s.streaming == 1 && !Rewinds(e)
    ensures var t := Step(s, e).0;
      && t.streaming == 1
      && t.cursor == if s.cursor + Turn(e) < NUM_OF_FEATURES then s.cursor + Turn(e) else NUM_OF_FEATURES
  {
  }

  lemma {:induction false} StreamAdvances(past: seq<Event>, es: seq<Event>)
    requires forall e :: e in es ==> !Rewinds(e)
    ensures var s := Run(past + [GetAll(1)] + es);
      s.streaming == 1 && s.cursor == (if Turns(es) < NUM_OF_FEATURES then Turns(es) else NUM_OF_FEATURES)
    ensures !Ended(past + [GetAll(1)] + es)
  {
    var all := past + [GetAll(1)] + es;
    if es == [] {
      assert all == past + [GetAll(1)];
      assert all[..|all| - 1] == past;
    } else {
      var n := |es| - 1;
      assert all[..|all| - 1] == past + [GetAll(1)] + es[..n];
      StreamAdvances(past, es[..n]);
      assert es[n] in es && all[|all| - 1] == es[n];
      StreamStep(Run(all[..|all| - 1]), es[n]);
    }
  }

  /** Streaming tells the whole table: after four passes the host knows every feature, each told once. */
  lemma StreamTellsAll(past: seq<Event>, es: seq<Event>)
    requires (forall e :: e in es ==> !Rewinds(e)) && Turns(es) >= NUM_OF_FEATURES
    ensures Told(past + [GetAll(1)] + es) == NUMS
  {
    StreamAdvances(past, es);
    ToldInOrder(past + [GetAll(1)] + es);
  }

  // ---- The code ----

  class FeatureStore {
    const features: array<Feature>
    var feature2send: nat
    var featureStreaming: nat

    ghost predicate Valid()
      reads this, features
    {
      features.Length == NUM_OF_FEATURES && WellFormed(State(features[..], feature2send, featureStreaming))
    }

    ghost function Now(): (s: State)
      reads this, features
      requires Valid()
      ensures WellFormed(s)
    {
      State(features[..], feature2send, featureStreaming)
    }

    constructor ()
      ensures Valid() && fresh(features) && Now() == Run([])
    {
      features := new Feature[NUM_OF_FEATURES](i requires 0 <= i < NUM_OF_FEATURES => InitialTable()[i]);
      feature2send, featureStreaming := 0, 0;
      new;
      assert features[..] == InitialTable();
    }

    method Find(num: nat) returns (i: nat)
      requires Valid()
      ensures i == IndexOf(features[..], num)
    {
      i := 0;
      while i < NUM_OF_FEATURES && features[i].num != num
        invariant i <= NUM_OF_FEATURES && IndexOf(features[..], num) == i + IndexOf(features[i..], num)
      {
        assert features[i..][1..] == features[i + 1..];
        i := i + 1;
      }
    }

    method GetFeature(num: nat) returns (reply: Reply)
      requires Valid()
      ensures Some(reply) == Step(Now(), Get(num)).1
    {
      var i := Find(num);
      reply := if i < NUM_OF_FEATURES then Value(num, features[i].value) else NotAvailable(num);
    }

    method SetFeature(num: nat, wanted: nat) returns (reply: Reply)
      requires Valid()
      modifies features
      ensures Valid() && (Now(), Some(reply)) == Step(old(Now()), Set(num, wanted))
    {
      var i := Find(num);
      if i == NUM_OF_FEATURES {
        return NotAvailable(num);
      }
      var value := wanted;
      if value < features[i].min { value := features[i].min; }
      if value > features[i].max { value := features[i].max; }
      features[i] := features[i].(value := value);
      reply := Value(num, value);
    }

    method SendNext() returns (reply: Reply)
      requires Valid()
      modifies this`feature2send
      ensures Valid() && (Now(), Some(reply)) == NextFeature(old(Now()))
    {
      if feature2send < NUM_OF_FEATURES {
        reply := Value(features[feature2send].num, features[feature2send].value);
        feature2send := feature2send + 1;
      } else {
        reply := NotAvailable(NO_MORE);
      }
    }

    /** The cases of the message switch, the streaming step of `run_bidib_client`, and the resets. */
    method Handle(e: Event) returns (reply: Option<Reply>)
      requires Valid()
      modifies this, features
      ensures Valid() && (Now(), reply) == Step(old(Now()), e)
    {
      reply := None;
      match e
      case GetAll(mode) =>
        feature2send, featureStreaming := 0, mode;
        reply := Some(Count(mode));
      case GetNext =>
        var r := SendNext();
        reply := Some(r);
      case Get(num) =>
        var r := GetFeature(num);
        reply := Some(r);
      case Set(num, value) =>
        var r := SetFeature(num, value);
        reply := Some(r);
      case Pass =>
        if featureStreaming == 1 && feature2send < NUM_OF_FEATURES {
          var r := SendNext();
          reply := Some(r);
        }
      case LoggedOn =>
        feature2send, featureStreaming := 0, 0;
      case Disabled =>
        feature2send, featureStreaming := NUM_OF_FEATURES, 0;
    }
  }
}
