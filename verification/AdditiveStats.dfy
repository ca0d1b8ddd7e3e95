/** The bits of Steam's stat groups. */
module StatBits {
  const BITS := 32

  function Mask(bit: nat): bv32
    requires bit < BITS
  {
    1 << bit
  }

  function And(a: bv32, b: bv32): bv32 {
    a & b
  }

  predicate Touches(value: bv32, mask: bv32) {
    And(value, mask) != 0
  }

  function Or(a: bv32, b: bv32): bv32 {
    a | b
  }

  predicate Has(value: bv32, bit: nat)
    requires bit < BITS
  {
    Touches(value, Mask(bit))
  }

  lemma MaskDoubles(bit: nat)
    requires bit + 1 < BITS
    ensures Mask(0) == 1 && Mask(bit + 1) == Mask(bit) << 1 && Mask(bit) < 0x8000_0000
  {
  }

  lemma HalfTouches(value: bv32, mask: bv32)
    requires mask < 0x8000_0000
    ensures Touches(value, mask << 1) <==> Touches(value >> 1, mask)
    ensures Touches(value, 1) <==> value & 1 == 1
  {
  }

  /** Bit 0 is the lowest one, and each further bit is the one before it of half the value. */
  lemma BitsInOrder(value: bv32, bit: nat)
    requires bit + 1 < BITS
    ensures Has(value, 0) <==> value & 1 == 1
    ensures Has(value, bit + 1) <==> Has(value >> 1, bit)
  {
    MaskDoubles(bit);
    HalfTouches(value, Mask(bit));
    hide Mask, Touches;
  }

  lemma Distribute(v: bv32, m: bv32, x: bv32)
    ensures x & (v | m) == (x & v) | (x & m) && (v | m) & x == (v & x) | (m & x)
  {
  }

  lemma AndOr(v: bv32, m: bv32, x: bv32)
    ensures And(x, Or(v, m)) == Or(And(x, v), And(x, m))
    ensures And(Or(v, m), x) == Or(And(v, x), And(m, x))
  {
    Distribute(v, m, x);
  }

  lemma OrZero(a: bv32, b: bv32)
    ensures Or(a, b) == 0 <==> a == 0 && b == 0
  {
  }

  lemma OrTouches(v: bv32, m: bv32, x: bv32)
    ensures Touches(Or(v, m), x) == (Touches(v, x) || Touches(m, x))
  {
    hide Or, And;
    AndOr(v, m, x);
    OrZero(And(v, x), And(m, x));
  }

  lemma MaskTouches(bit: nat, other: nat)
    requires bit < BITS && other < BITS
    ensures Touches(Mask(bit), Mask(other)) <==> bit == other
  {
  }

  /** Setting one bit sets that bit and no other. */
  lemma SetBit(value: bv32, bit: nat, other: nat)
    requires bit < BITS && other < BITS
    ensures Has(Or(value, Mask(bit)), other) <==> Has(value, other) || other == bit
  {
    hide Mask, Touches, Or, And;
    MaskTouches(bit, other);
    OrTouches(value, Mask(bit), Mask(other));
  }

  function Low(bit: nat): bv32
    requires bit <= BITS
  {
    if bit == 0 then 0 else Or(Low(bit - 1), Mask(bit - 1))
  }

  lemma AndMask(value: bv32, bit: nat)
    requires bit < BITS
    ensures And(value, Mask(bit)) == 0 || And(value, Mask(bit)) == Mask(bit)
  {
  }

  function LessOne(value: bv32): bv32 {
    value - 1
  }

  lemma LowGrows(bit: nat)
    requires bit + 1 < BITS
    ensures Or(LessOne(Mask(bit)), Mask(bit)) == LessOne(Mask(bit + 1))
  {
  }

  lemma LowEnds()
    ensures LessOne(Mask(0)) == 0 && Or(LessOne(Mask(31)), Mask(31)) == 0xFFFF_FFFF
  {
  }

  lemma {:induction false} LowIsBelow(bit: nat)
    requires bit < BITS
    ensures Low(bit) == LessOne(Mask(bit))
  {
    LowEnds();
    hide Mask, Or, LessOne;
    if bit == 0 {
    } else {
      LowIsBelow(bit - 1);
      LowGrows(bit - 1);
    }
  }

  lemma AllBits(value: bv32)
    ensures Low(BITS) == 0xFFFF_FFFF && And(value, 0xFFFF_FFFF) == value
  {
    LowIsBelow(31);
    LowEnds();
    hide Mask, Or, LessOne;
  }

  lemma {:induction false} SameBelow(a: bv32, c: bv32, bit: nat)
    requires bit <= BITS && forall b: nat :: b < BITS ==> Has(a, b) == Has(c, b)
    ensures And(a, Low(bit)) == And(c, Low(bit))
  {
    if bit == 0 {
    } else {
      assert Has(a, bit - 1) == Has(c, bit - 1);
      assert Touches(a, Mask(bit - 1)) <==> And(a, Mask(bit - 1)) != 0;
      assert Touches(c, Mask(bit - 1)) <==> And(c, Mask(bit - 1)) != 0;
      hide Mask, And, Or, Has, Touches;
      SameBelow(a, c, bit - 1);
      AndMask(a, bit - 1);
      AndMask(c, bit - 1);
      AndOr(Low(bit - 1), Mask(bit - 1), a);
      AndOr(Low(bit - 1), Mask(bit - 1), c);
    }
  }

  /** A stat value is its bits. */
  lemma SameBits(a: bv32, c: bv32)
    requires forall b: nat :: b < BITS ==> Has(a, b) == Has(c, b)
    ensures a == c
  {
    hide Mask, Low;
    SameBelow(a, c, BITS);
    AllBits(a);
    AllBits(c);
  }
}

/** Plans for unlocking achievements on Steam without ever clearing one. */
module AdditiveStats {
  import opened Bytes
  import opened StatBits

  datatype AchievementBit = AchievementBit(statId: nat, bit: nat, name: string)

  /** Both fields of Steam's message are optional. */
  datatype CurrentStat = CurrentStat(id: Option<nat>, value: Option<bv32>)

  datatype StoreStat = StoreStat(id: nat, value: bv32)

  datatype Problem = UnknownName(name: string) | UnsupportedBit(name: string) | MissingValue(id: nat)

  datatype PlanResult = Planned(plan: seq<StoreStat>) | Rejected(problem: Problem)

  type Index = map<string, AchievementBit>

  type Values = map<nat, bv32>

  /** The last definition of a name counts. */
  function IndexOf(definitions: seq<AchievementBit>): Index {
    if definitions == [] then map[]
    else
      var last := definitions[|definitions| - 1];
      IndexOf(definitions[..|definitions| - 1])[last.name := last]
  }

  /** Stats without an identifier or a value are skipped, and the last value of a group counts. */
  function ValuesOf(stats: seq<CurrentStat>): Values {
    if stats == [] then map[]
    else
      var last := stats[|stats| - 1];
      var older := ValuesOf(stats[..|stats| - 1]);
      if last.id.Some? && last.value.Some? then older[last.id.value := last.value.value] else older
  }

  // ----- The lists Steam sends -----

  /** The last entry of the list for this name is this one. */
  ghost predicate Defines(definitions: seq<AchievementBit>, name: string, d: AchievementBit) {
    exists k ::
      && 0 <= k < |definitions| && definitions[k] == d && d.name == name
      && forall j :: k < j < |definitions| ==> definitions[j].name != name
  }

  /** The last entry of the list that has this group and a value has this value. */
  ghost predicate Reports(stats: seq<CurrentStat>, id: nat, value: bv32) {
    exists k ::
      && 0 <= k < |stats| && stats[k] == CurrentStat(Some(id), Some(value))
      && forall j :: k < j < |stats| ==> stats[j].id != Some(id) || stats[j].value.None?
  }

  lemma LastDefines(definitions: seq<AchievementBit>, last: AchievementBit, name: string, d: AchievementBit)
    ensures Defines(definitions + [last], name, d) <==> if last.name == name then d == last else Defines(definitions, name, d)
  {
    var all := definitions + [last];
    assert all[|definitions|] == last;
    if Defines(definitions, name, d) && last.name != name {
      var k :| && 0 <= k < |definitions| && definitions[k] == d && d.name == name
               && forall j :: k < j < |definitions| ==> definitions[j].name != name;
      assert all[k] == d;
    }
    if Defines(all, name, d) && last.name != name {
      var k :| && 0 <= k < |all| && all[k] == d && d.name == name && forall j :: k < j < |all| ==> all[j].name != name;
      assert definitions[k] == d;
      assert forall j :: k < j < |definitions| ==> definitions[j] == all[j];
    }
  }

  /** The index holds exactly the last definition of each name. */
  lemma {:induction false} IndexOfIff(definitions: seq<AchievementBit>, name: string, d: AchievementBit)
    ensures name in IndexOf(definitions) && IndexOf(definitions)[name] == d <==> Defines(definitions, name, d)
  {
    if definitions == [] {
    } else {
      var last, older := definitions[|definitions| - 1], definitions[..|definitions| - 1];
      IndexOfIff(older, name, d);
      LastDefines(older, last, name, d);
      assert definitions == older + [last];
      hide Defines;
    }
  }

  lemma LastReports(stats: seq<CurrentStat>, last: CurrentStat, id: nat, value: bv32)
    ensures Reports(stats + [last], id, value)
       <==> if last.id == Some(id) && last.value.Some? then last.value == Some(value) else Reports(stats, id, value)
  {
    var all := stats + [last];
    var counts := last.id == Some(id) && last.value.Some?;
    assert all[|stats|] == last;
    if Reports(stats, id, value) && !counts {
      var k :| && 0 <= k < |stats| && stats[k] == CurrentStat(Some(id), Some(value))
               && forall j :: k < j < |stats| ==> stats[j].id != Some(id) || stats[j].value.None?;
      assert all[k] == stats[k];
    }
    if Reports(all, id, value) && !counts {
      var k :| && 0 <= k < |all| && all[k] == CurrentStat(Some(id), Some(value))
               && forall j :: k < j < |all| ==> all[j].id != Some(id) || all[j].value.None?;
      assert stats[k] == all[k];
      assert forall j :: k < j < |stats| ==> stats[j] == all[j];
    }
  }

  /** The values are exactly the last ones reported of each group; entries without both fields are skipped. */
  lemma {:induction false} ValuesOfIff(stats: seq<CurrentStat>, id: nat, value: bv32)
    ensures id in ValuesOf(stats) && ValuesOf(stats)[id] == value <==> Reports(stats, id, value)
  {
    if stats == [] {
    } else {
      var last, older := stats[|stats| - 1], stats[..|stats| - 1];
      ValuesOfIff(older, id, value);
      LastReports(older, last, id, value);
      assert stats == older + [last];
      hide Reports;
    }
  }

  // ----- What a plan is -----

  function ProblemOf(index: Index, values: Values, name: string): Option<Problem> {
    if name !in index then Some(UnknownName(name))
    else if index[name].bit >= BITS then Some(UnsupportedBit(index[name].name))
    else if index[name].statId !in values then Some(MissingValue(index[name].statId))
    else None
  }

  ghost predicate Ready(index: Index, values: Values, names: seq<string>) {
    forall name :: name in names ==> ProblemOf(index, values, name) == None
  }

  /** A name asks for this bit of this group. */
  ghost predicate Asked(index: Index, names: seq<string>, id: nat, bit: nat) {
    exists name :: name in names && name in index && index[name].statId == id && index[name].bit == bit
  }

  /** The value has the old bits and the ones asked for, and no others. */
  ghost predicate Adds(index: Index, names: seq<string>, id: nat, before: bv32, after: bv32) {
    forall bit: nat :: bit < BITS ==> (Has(after, bit) <==> Has(before, bit) || Asked(index, names, id, bit))
  }

  predicate Ascending(plan: seq<StoreStat>) {
    forall i, j :: 0 <= i < j < |plan| ==> plan[i].id < plan[j].id
  }

  /** Every changed group once, in ascending order, with its complete new value; nothing else. */
  ghost predicate PlanFor(index: Index, values: Values, names: seq<string>, plan: seq<StoreStat>) {
    && Ascending(plan)
    && (forall s :: s in plan ==> s.id in values && s.value != values[s.id] && Adds(index, names, s.id, values[s.id], s.value))
    && (forall id :: id in values && (forall s :: s in plan ==> s.id != id) ==> Adds(index, names, id, values[id], values[id]))
  }

  // ----- The same of the lists themselves -----

  /** A name whose last definition has this group and this bit is among the names. */
  ghost predicate Wanted(definitions: seq<AchievementBit>, names: seq<string>, id: nat, bit: nat) {
    exists name, d :: name in names && Defines(definitions, name, d) && d.statId == id && d.bit == bit
  }

  ghost predicate Raises(definitions: seq<AchievementBit>, names: seq<string>, id: nat, before: bv32, after: bv32) {
    forall bit: nat :: bit < BITS ==> (Has(after, bit) <==> Has(before, bit) || Wanted(definitions, names, id, bit))
  }

  /** The name is defined, its bit is one of 32, and its group has a value. */
  ghost predicate Usable(definitions: seq<AchievementBit>, stats: seq<CurrentStat>, name: string) {
    exists d, value :: Defines(definitions, name, d) && d.bit < BITS && Reports(stats, d.statId, value)
  }

  ghost predicate AllUsable(definitions: seq<AchievementBit>, stats: seq<CurrentStat>, names: seq<string>) {
    forall name :: name in names ==> Usable(definitions, stats, name)
  }

  /** Why a name is not usable: no definition, or its last definition's bit or group. */
  ghost predicate Blames(definitions: seq<AchievementBit>, stats: seq<CurrentStat>, name: string, problem: Problem) {
    match problem
    case UnknownName(n) => n == name && forall d :: !Defines(definitions, name, d)
    case UnsupportedBit(n) => n == name && exists d :: Defines(definitions, name, d) && d.bit >= BITS
    case MissingValue(id) =>
      exists d :: Defines(definitions, name, d) && d.bit < BITS && d.statId == id && forall value :: !Reports(stats, id, value)
  }

  /** The groups are in ascending order; each has its last reported value with the wanted bits added, which
      changes it; and the groups left out have all their wanted bits already. */
  ghost predicate Sends(definitions: seq<AchievementBit>, stats: seq<CurrentStat>, names: seq<string>, plan: seq<StoreStat>) {
    && Ascending(plan)
    && (forall s :: s in plan ==>
          exists value :: Reports(stats, s.id, value) && s.value != value && Raises(definitions, names, s.id, value, s.value))
    && (forall id, value :: Reports(stats, id, value) && (forall s :: s in plan ==> s.id != id) ==>
          Raises(definitions, names, id, value, value))
  }

  lemma WantedIff(definitions: seq<AchievementBit>, names: seq<string>, id: nat, bit: nat)
    ensures Asked(IndexOf(definitions), names, id, bit) <==> Wanted(definitions, names, id, bit)
  {
    hide Defines, IndexOf;
    var index := IndexOf(definitions);
    if Asked(index, names, id, bit) {
      var name :| name in names && name in index && index[name].statId == id && index[name].bit == bit;
      IndexOfIff(definitions, name, index[name]);
    }
    if Wanted(definitions, names, id, bit) {
      var name, d :| name in names && Defines(definitions, name, d) && d.statId == id && d.bit == bit;
      IndexOfIff(definitions, name, d);
    }
  }

  lemma RaisesIff(definitions: seq<AchievementBit>, names: seq<string>, id: nat, before: bv32, after: bv32)
    ensures Adds(IndexOf(definitions), names, id, before, after) <==> Raises(definitions, names, id, before, after)
  {
    hide Has, Asked, Wanted;
    forall bit: nat | bit < BITS
      ensures Asked(IndexOf(definitions), names, id, bit) <==> Wanted(definitions, names, id, bit)
    {
      WantedIff(definitions, names, id, bit);
    }
  }

  lemma DefinedOnce(definitions: seq<AchievementBit>, name: string)
    ensures name in IndexOf(definitions) ==> Defines(definitions, name, IndexOf(definitions)[name])
    ensures forall d :: Defines(definitions, name, d) ==> name in IndexOf(definitions) && IndexOf(definitions)[name] == d
  {
    hide Defines, IndexOf;
    var index := IndexOf(definitions);
    if name in index {
      IndexOfIff(definitions, name, index[name]);
    }
    forall d | Defines(definitions, name, d)
      ensures name in index && index[name] == d
    {
      IndexOfIff(definitions, name, d);
    }
  }

  lemma ReportedOnce(stats: seq<CurrentStat>, id: nat)
    ensures id in ValuesOf(stats) ==> Reports(stats, id, ValuesOf(stats)[id])
    ensures forall value :: Reports(stats, id, value) ==> id in ValuesOf(stats) && ValuesOf(stats)[id] == value
  {
    hide Reports, ValuesOf;
    var values := ValuesOf(stats);
    if id in values {
      ValuesOfIff(stats, id, values[id]);
    }
    forall value | Reports(stats, id, value)
      ensures id in values && values[id] == value
    {
      ValuesOfIff(stats, id, value);
    }
  }

  lemma DefinedName(definitions: seq<AchievementBit>, name: string, d: AchievementBit)
    requires Defines(definitions, name, d)
    ensures d.name == name
  {
  }

  /** A name has no problem exactly when it is usable, and its problem is the one the lists give it. */
  lemma ProblemOfIff(definitions: seq<AchievementBit>, stats: seq<CurrentStat>, name: string, problem: Problem)
    ensures ProblemOf(IndexOf(definitions), ValuesOf(stats), name) == None <==> Usable(definitions, stats, name)
    ensures ProblemOf(IndexOf(definitions), ValuesOf(stats), name) == Some(problem) <==> Blames(definitions, stats, name, problem)
  {
    hide Defines, Reports, IndexOf, ValuesOf;
    DefinedOnce(definitions, name);
    if name in IndexOf(definitions) {
      var d := IndexOf(definitions)[name];
      DefinedName(definitions, name, d);
      ReportedOnce(stats, d.statId);
    }
  }

  lemma ReadyIff(definitions: seq<AchievementBit>, stats: seq<CurrentStat>, names: seq<string>)
    ensures Ready(IndexOf(definitions), ValuesOf(stats), names) <==> AllUsable(definitions, stats, names)
  {
    hide ProblemOf, Usable, IndexOf, ValuesOf;
    forall name
      ensures ProblemOf(IndexOf(definitions), ValuesOf(stats), name) == None <==> Usable(definitions, stats, name)
    {
      ProblemOfIff(definitions, stats, name, UnknownName(name));
    }
  }

  /** A plan for the index and the values is what the lists themselves call for. */
  lemma PlanForIff(definitions: seq<AchievementBit>, stats: seq<CurrentStat>, names: seq<string>, plan: seq<StoreStat>)
    ensures PlanFor(IndexOf(definitions), ValuesOf(stats), names, plan) <==> Sends(definitions, stats, names, plan)
  {
    hide Adds, Raises, Reports, Ascending, IndexOf, ValuesOf;
    var index, values := IndexOf(definitions), ValuesOf(stats);
    forall s | s in plan
      ensures s.id in values && s.value != values[s.id] && Adds(index, names, s.id, values[s.id], s.value)
         <==> exists value :: Reports(stats, s.id, value) && s.value != value && Raises(definitions, names, s.id, value, s.value)
    {
      ReportedOnce(stats, s.id);
      if s.id in values {
        RaisesIff(definitions, names, s.id, values[s.id], s.value);
      }
    }
    forall id, value
      ensures Reports(stats, id, value) <==> id in values && values[id] == value
      ensures id in values && values[id] == value ==>
                (Adds(index, names, id, values[id], values[id]) <==> Raises(definitions, names, id, value, value))
    {
      ReportedOnce(stats, id);
      RaisesIff(definitions, names, id, value, value);
    }
    assert forall id :: id in values ==> Reports(stats, id, values[id]);
  }

  // ----- Building a plan -----

  ghost predicate Progress(index: Index, values: Values, names: seq<string>, now: Values, changed: set<nat>) {
    && now.Keys == values.Keys && changed <= values.Keys
    && (forall id :: id in values ==> Adds(index, names, id, values[id], now[id]))
    && (forall id :: id in values ==> (id in changed <==> now[id] != values[id]))
  }

  lemma Starting(index: Index, values: Values)
    ensures Progress(index, values, [], values, {})
  {
  }

  lemma AskedMore(index: Index, names: seq<string>, name: string, id: nat, bit: nat)
    requires name in index
    ensures Asked(index, names + [name], id, bit)
       <==> Asked(index, names, id, bit) || (index[name].statId == id && index[name].bit == bit)
  {
    if Asked(index, names, id, bit) {
      var n :| n in names && n in index && index[n].statId == id && index[n].bit == bit;
      assert n in names + [name];
    }
    assert name in names + [name];
  }

  lemma AddsMore(index: Index, names: seq<string>, name: string, id: nat, before: bv32, after: bv32)
    requires name in index && index[name].bit < BITS && Adds(index, names, id, before, after)
    ensures index[name].statId == id ==> Adds(index, names + [name], id, before, Or(after, Mask(index[name].bit)))
    ensures index[name].statId != id ==> Adds(index, names + [name], id, before, after)
  {
    hide Has, Asked, Or, Mask;
    forall bit: nat | bit < BITS
      ensures Asked(index, names + [name], id, bit)
         <==> Asked(index, names, id, bit) || (index[name].statId == id && index[name].bit == bit)
      ensures Has(Or(after, Mask(index[name].bit)), bit) <==> Has(after, bit) || bit == index[name].bit
    {
      AskedMore(index, names, name, id, bit);
      SetBit(after, index[name].bit, bit);
    }
  }

  lemma AddsOnly(index: Index, names: seq<string>, id: nat, before: bv32, now: bv32, after: bv32)
    requires Adds(index, names, id, before, now) && now != before
    requires forall bit: nat :: bit < BITS && Has(now, bit) ==> Has(after, bit)
    ensures after != before
  {
    hide Has, Asked;
    if forall b: nat :: b < BITS ==> Has(now, b) == Has(before, b) {
      SameBits(now, before);
    }
  }

  lemma NextName(index: Index, values: Values, names: seq<string>, now: Values, changed: set<nat>, name: string)
    requires Progress(index, values, names, now, changed) && ProblemOf(index, values, name) == None
    ensures var id := index[name].statId;
            var updated := Or(now[id], Mask(index[name].bit));
            Progress(index, values, names + [name], now[id := updated], if updated != now[id] then changed + {id} else changed)
  {
    hide Adds, Or, Mask;
    var id := index[name].statId;
    var updated := Or(now[id], Mask(index[name].bit));
    forall i | i in values
      ensures i == id ==> Adds(index, names + [name], i, values[i], updated)
      ensures i != id ==> Adds(index, names + [name], i, values[i], now[i])
    {
      AddsMore(index, names, name, i, values[i], now[i]);
    }
    if now[id] != values[id] {
      forall bit: nat | bit < BITS
        ensures Has(now[id], bit) ==> Has(updated, bit)
      {
        SetBit(now[id], index[name].bit, bit);
      }
      AddsOnly(index, names, id, values[id], now[id], updated);
    }
  }

  lemma Minimum(s: set<nat>) returns (m: nat)
    requires s != {}
    ensures m in s && forall x :: x in s ==> m <= x
  {
    var any :| any in s;
    m := any;
    if s == {any} {
    } else {
      var rest := Minimum(s - {any});
      m := Min(any, rest);
      assert forall x :: x in s ==> x == any || x in s - {any};
    }
  }

  /** The entries of the changed groups below the ones still to be emitted. */
  ghost predicate Emitted(now: Values, changed: set<nat>, left: set<nat>, plan: seq<StoreStat>) {
    && Ascending(plan) && left <= changed
    && (forall s :: s in plan ==> s.id in changed && s.id !in left && s.id in now && s.value == now[s.id])
    && (forall id :: id in changed && id !in left ==> exists s :: s in plan && s.id == id)
    && (forall s, id :: s in plan && id in left ==> s.id < id)
  }

  lemma EmitNext(now: Values, changed: set<nat>, left: set<nat>, plan: seq<StoreStat>, id: nat)
    requires Emitted(now, changed, left, plan) && id in left && id in now
    requires forall x :: x in left ==> id <= x
    ensures Emitted(now, changed, left - {id}, plan + [StoreStat(id, now[id])])
  {
    var next := plan + [StoreStat(id, now[id])];
    forall i, j | 0 <= i < j < |next|
      ensures next[i].id < next[j].id
    {
      assert next[i] == plan[i] && plan[i] in plan;
    }
    forall x | x in changed && x !in left - {id}
      ensures exists s :: s in next && s.id == x
    {
      if x == id {
        assert next[|plan|] in next;
      } else {
        var s :| s in plan && s.id == x;
        assert s in next;
      }
    }
  }

  lemma AllEmitted(index: Index, values: Values, names: seq<string>, now: Values, changed: set<nat>, plan: seq<StoreStat>)
    requires Progress(index, values, names, now, changed) && Emitted(now, changed, {}, plan)
    ensures PlanFor(index, values, names, plan)
  {
    hide Adds, Ascending;
    forall id | id in values && forall s :: s in plan ==> s.id != id
      ensures Adds(index, names, id, values[id], values[id])
    {
      assert id !in changed;
    }
  }

  lemma FirstOffence(definitions: seq<AchievementBit>, stats: seq<CurrentStat>, names: seq<string>, k: nat, problem: Problem)
    requires k < |names| && Ready(IndexOf(definitions), ValuesOf(stats), names[..k])
    requires ProblemOf(IndexOf(definitions), ValuesOf(stats), names[k]) == Some(problem)
    ensures !AllUsable(definitions, stats, names)
    ensures Blames(definitions, stats, names[k], problem) && AllUsable(definitions, stats, names[..k])
  {
    hide ProblemOf, Usable, Blames, IndexOf, ValuesOf;
    ReadyIff(definitions, stats, names[..k]);
    ProblemOfIff(definitions, stats, names[k], problem);
    assert names[k] in names;
  }

  /** The first name with a problem fails the whole plan; otherwise the result is the plan. */
  method BuildAdditiveStats(definitions: seq<AchievementBit>, currentStats: seq<CurrentStat>, names: seq<string>)
    returns (r: PlanResult)
    ensures r.Planned? <==> AllUsable(definitions, currentStats, names)
    ensures r.Planned? ==> Sends(definitions, currentStats, names, r.plan)
    ensures r.Rejected? ==>
              exists k :: (&& 0 <= k < |names|
                           && Blames(definitions, currentStats, names[k], r.problem)
                           && AllUsable(definitions, currentStats, names[..k]))
  {
    hide IndexOf, ValuesOf, Progress, Emitted, PlanFor, Or, Mask, Sends, AllUsable, Blames;
    var byName := IndexOf(definitions);
    ghost var before := ValuesOf(currentStats);
    var values := ValuesOf(currentStats);
    var changed: set<nat> := {};
    Starting(byName, before);
    for k := 0 to |names|
      invariant Ready(byName, before, names[..k])
      invariant values.Keys == before.Keys && changed <= before.Keys
      invariant Progress(byName, before, names[..k], values, changed)
    {
      var name := names[k];
      assert name in names && names[..k + 1] == names[..k] + [name];
      if name !in byName {
        FirstOffence(definitions, currentStats, names, k, UnknownName(name));
        return Rejected(UnknownName(name));
      }
      var definition := byName[name];
      if definition.bit >= BITS {
        FirstOffence(definitions, currentStats, names, k, UnsupportedBit(definition.name));
        return Rejected(UnsupportedBit(definition.name));
      }
      if definition.statId !in values {
        FirstOffence(definitions, currentStats, names, k, MissingValue(definition.statId));
        return Rejected(MissingValue(definition.statId));
      }
      NextName(byName, before, names[..k], values, changed, name);
      var updated := Or(values[definition.statId], Mask(definition.bit));
      if updated != values[definition.statId] {
        values := values[definition.statId := updated];
        changed := changed + {definition.statId};
      } else {
        assert values[definition.statId := updated] == values;
      }
    }
    assert names[..|names|] == names;
    var plan := Emit(values, changed);
    AllEmitted(byName, before, names, values, changed, plan);
    ReadyIff(definitions, currentStats, names);
    PlanForIff(definitions, currentStats, names, plan);
    r := Planned(plan);
  }

  method Emit(values: Values, changed: set<nat>) returns (plan: seq<StoreStat>)
    requires changed <= values.Keys
    ensures Emitted(values, changed, {}, plan)
  {
    plan := [];
    var left := changed;
    while left != {}
      invariant left <= changed
      invariant Emitted(values, changed, left, plan)
    {
      hide Emitted;
      ghost var m := Minimum(left);
      var id: nat :| id in left && forall x :: x in left ==> id <= x;
      EmitNext(values, changed, left, plan, id);
      plan := plan + [StoreStat(id, values[id])];
      left := left - {id};
    }
  }

  // ----- What a plan does -----

  /** Steam's values once the plan is stored. */
  function Applied(values: Values, plan: seq<StoreStat>): Values {
    if plan == [] then values
    else Applied(values, plan[..|plan| - 1])[plan[|plan| - 1].id := plan[|plan| - 1].value]
  }

  lemma {:induction false} AppliedElsewhere(values: Values, plan: seq<StoreStat>, id: nat)
    requires forall s :: s in plan ==> s.id != id
    ensures id in Applied(values, plan) <==> id in values
    ensures id in values ==> Applied(values, plan)[id] == values[id]
  {
    if plan == [] {
    } else {
      assert plan[|plan| - 1] in plan;
      AppliedElsewhere(values, plan[..|plan| - 1], id);
    }
  }

  lemma {:induction false} AppliedAt(values: Values, plan: seq<StoreStat>, k: nat)
    requires Ascending(plan) && k < |plan|
    ensures plan[k].id in Applied(values, plan) && Applied(values, plan)[plan[k].id] == plan[k].value
  {
    if k == |plan| - 1 {
    } else {
      AppliedAt(values, plan[..|plan| - 1], k);
    }
  }

  /** Storing a plan sets exactly the bits asked for, in every group, and clears none. */
  lemma PlanAddsExactly(index: Index, values: Values, names: seq<string>, plan: seq<StoreStat>, id: nat)
    requires PlanFor(index, values, names, plan)
    ensures id in Applied(values, plan) <==> id in values
    ensures id in values ==> Adds(index, names, id, values[id], Applied(values, plan)[id])
  {
    hide Adds, Ascending;
    if k :| 0 <= k < |plan| && plan[k].id == id {
      assert plan[k] in plan;
      AppliedAt(values, plan, k);
    } else {
      AppliedElsewhere(values, plan, id);
    }
  }

  lemma AddsUnique(index: Index, names: seq<string>, names': seq<string>, id: nat, before: bv32, a: bv32, c: bv32)
    requires forall name :: name in names <==> name in names'
    requires Adds(index, names, id, before, a) && Adds(index, names', id, before, c)
    ensures a == c
  {
    hide Has;
    forall bit: nat | bit < BITS
      ensures Has(a, bit) == Has(c, bit)
    {
      SameAsked(index, names, names', id, bit);
    }
    SameBits(a, c);
  }

  lemma SameAsked(index: Index, names: seq<string>, names': seq<string>, id: nat, bit: nat)
    requires forall name :: name in names <==> name in names'
    ensures Asked(index, names, id, bit) <==> Asked(index, names', id, bit)
  {
  }

  lemma {:induction false} AscendingUnique(p: seq<StoreStat>, q: seq<StoreStat>)
    requires Ascending(p) && Ascending(q) && forall s :: s in p <==> s in q
    ensures p == q
  {
    assert p != [] ==> p[0] in p;
    assert q != [] ==> q[0] in q;
    if p == [] || q == [] {
    } else {
      var m, n := |p| - 1, |q| - 1;
      assert p[m] in q && q[n] in p;
      assert p[m].id >= q[n].id && q[n].id >= p[m].id by {
        var i :| 0 <= i < |q| && q[i] == p[m];
        var j :| 0 <= j < |p| && p[j] == q[n];
      }
      assert p[m] == q[n] by {
        var i :| 0 <= i < |q| && q[i] == p[m];
      }
      forall s
        ensures s in p[..m] <==> s in q[..n]
      {
        if s in p[..m] {
          var i :| 0 <= i < m && p[i] == s;
          assert p[i] in q && p[i].id < p[m].id;
        }
        if s in q[..n] {
          var i :| 0 <= i < n && q[i] == s;
          assert q[i] in p && q[i].id < q[n].id;
        }
      }
      AscendingUnique(p[..m], q[..n]);
    }
  }

  lemma PlanIncluded(index: Index, values: Values, names: seq<string>, names': seq<string>,
                     p: seq<StoreStat>, q: seq<StoreStat>, s: StoreStat)
    requires forall name :: name in names <==> name in names'
    requires PlanFor(index, values, names, p) && PlanFor(index, values, names', q) && s in p
    ensures s in q
  {
    hide Adds, Ascending;
    if t :| t in q && t.id == s.id {
      AddsUnique(index, names, names', s.id, values[s.id], s.value, t.value);
    } else {
      AddsUnique(index, names, names', s.id, values[s.id], s.value, values[s.id]);
    }
  }

  /** Neither the order nor the repetition of names matters: there is one plan. */
  lemma PlanUnique(index: Index, values: Values, names: seq<string>, names': seq<string>,
                   p: seq<StoreStat>, q: seq<StoreStat>)
    requires forall name :: name in names <==> name in names'
    requires PlanFor(index, values, names, p) && PlanFor(index, values, names', q)
    ensures p == q
  {
    hide Adds;
    forall s
      ensures s in p <==> s in q
    {
      if s in p {
        PlanIncluded(index, values, names, names', p, q, s);
      }
      if s in q {
        PlanIncluded(index, values, names', names, q, p, s);
      }
    }
    AscendingUnique(p, q);
  }

  lemma AddsAgain(index: Index, names: seq<string>, id: nat, before: bv32, after: bv32)
    requires Adds(index, names, id, before, after)
    ensures Adds(index, names, id, after, after)
  {
    hide Has, Asked;
  }

  /** Once a plan is stored, planning the same names again asks for nothing. */
  lemma ReplanIsEmpty(index: Index, values: Values, names: seq<string>, plan: seq<StoreStat>, again: seq<StoreStat>)
    requires PlanFor(index, values, names, plan) && PlanFor(index, Applied(values, plan), names, again)
    ensures again == []
  {
    hide Adds;
    var after := Applied(values, plan);
    if again != [] {
      var s := again[0];
      assert s in again;
      PlanAddsExactly(index, values, names, plan, s.id);
      AddsAgain(index, names, s.id, values[s.id], after[s.id]);
      AddsUnique(index, names, names, s.id, after[s.id], s.value, after[s.id]);
    }
  }

  // ----- The whole synchronisation -----

  datatype Achievement = Achievement(name: string, achieved: bool)

  /** Whether each name is achieved; the last entry of a name counts. */
  function CacheOf(list: seq<Achievement>): map<string, bool> {
    if list == [] then map[]
    else CacheOf(list[..|list| - 1])[list[|list| - 1].name := list[|list| - 1].achieved]
  }

  /** The last entry of the list with this name says this. */
  ghost predicate Says(list: seq<Achievement>, name: string, achieved: bool) {
    exists k ::
      && 0 <= k < |list| && list[k] == Achievement(name, achieved)
      && forall j :: k < j < |list| ==> list[j].name != name
  }

  lemma LastSays(list: seq<Achievement>, last: Achievement, name: string, achieved: bool)
    ensures Says(list + [last], name, achieved)
       <==> if last.name == name then last.achieved == achieved else Says(list, name, achieved)
  {
    var all := list + [last];
    assert all[|list|] == last;
    if Says(list, name, achieved) && last.name != name {
      var k :| && 0 <= k < |list| && list[k] == Achievement(name, achieved)
               && forall j :: k < j < |list| ==> list[j].name != name;
      assert all[k] == list[k];
    }
    if Says(all, name, achieved) && last.name != name {
      var k :| && 0 <= k < |all| && all[k] == Achievement(name, achieved) && forall j :: k < j < |all| ==> all[j].name != name;
      assert list[k] == all[k];
      assert forall j :: k < j < |list| ==> list[j] == all[j];
    }
  }

  /** The cache holds exactly what the last entry of each name says. */
  lemma {:induction false} CacheOfIff(list: seq<Achievement>, name: string, achieved: bool)
    ensures name in CacheOf(list) && CacheOf(list)[name] == achieved <==> Says(list, name, achieved)
  {
    if list == [] {
    } else {
      var last, older := list[|list| - 1], list[..|list| - 1];
      CacheOfIff(older, name, achieved);
      LastSays(older, last, name, achieved);
      assert list == older + [last];
      hide Says;
    }
  }

  ghost predicate Caches(cache: map<string, bool>, list: seq<Achievement>) {
    forall n, a :: n in cache && cache[n] == a <==> Says(list, n, a)
  }

  lemma CachedIs(cache: map<string, bool>, list: seq<Achievement>)
    requires Caches(cache, list)
    ensures forall n :: Says(list, n, false) <==> n in cache && !cache[n]
    ensures forall n :: Says(list, n, true) <==> n in cache && cache[n]
  {
    hide Says;
  }

  lemma CacheOfCaches(list: seq<Achievement>)
    ensures Caches(CacheOf(list), list)
  {
    hide CacheOf, Says;
    forall n, a
      ensures n in CacheOf(list) && CacheOf(list)[n] == a <==> Says(list, n, a)
    {
      CacheOfIff(list, n, a);
    }
  }

  ghost function AchievedIn(list: seq<Achievement>): set<string> {
    set a | a in list && a.achieved :: a.name
  }

  /** Nothing achieved before is missing from the read-back. */
  method EnsureNoExistingUnlocksLost(previously: set<string>, verified: seq<Achievement>) returns (ok: bool)
    ensures ok <==> previously <= AchievedIn(verified)
  {
    var after := set a | a in verified && a.achieved :: a.name;
    var lost := previously - after;
    ok := |lost| == 0;
    assert after == AchievedIn(verified);
    assert forall n :: n in previously ==> n in lost || n in after;
  }

  const VERIFY_ATTEMPTS := 4

  predicate AllAchieved(names: seq<string>, list: seq<Achievement>) {
    forall n :: n in names ==> exists a :: a in list && a.name == n && a.achieved
  }

  /** A list has a name achieved when some entry says so. */
  lemma AchievedIff(names: seq<string>, list: seq<Achievement>, name: string)
    ensures name in AchievedIn(list) <==> Achievement(name, true) in list
    ensures AllAchieved(names, list) <==> forall n :: n in names ==> n in AchievedIn(list)
  {
    if AllAchieved(names, list) {
      forall n | n in names
        ensures n in AchievedIn(list)
      {
        var a :| a in list && a.name == n && a.achieved;
      }
    }
    if name in AchievedIn(list) {
      var a :| a in list && a.name == name && a.achieved;
      assert a == Achievement(name, true);
    }
  }

  /** What is read back after a store: the first answer that has every name achieved, or the last one; an
      answer that does not arrive ends it. */
  ghost predicate ReadBack(names: seq<string>, answers: nat -> Option<seq<Achievement>>, verified: Option<seq<Achievement>>) {
    exists last: nat ::
      && last < VERIFY_ATTEMPTS && verified == answers(last)
      && (forall k: nat :: k < last ==> answers(k).Some? && !AllAchieved(names, answers(k).value))
      && (verified.None? || AllAchieved(names, verified.value) || last == VERIFY_ATTEMPTS - 1)
  }

  /** A first answer that is missing or complete is the one read back; of four that are neither, the last is. */
  lemma ReadBackEnds(names: seq<string>, answers: nat -> Option<seq<Achievement>>, verified: Option<seq<Achievement>>)
    requires ReadBack(names, answers, verified)
    ensures verified in {answers(0), answers(1), answers(2), answers(3)}
    ensures answers(0).None? || AllAchieved(names, answers(0).value) ==> verified == answers(0)
    ensures (forall k: nat :: k < 4 ==> answers(k).Some? && !AllAchieved(names, answers(k).value)) ==> verified == answers(3)
  {
    hide AllAchieved;
    var last: nat :|
      && last < VERIFY_ATTEMPTS && verified == answers(last)
      && (forall k: nat :: k < last ==> answers(k).Some? && !AllAchieved(names, answers(k).value))
      && (verified.None? || AllAchieved(names, verified.value) || last == VERIFY_ATTEMPTS - 1);
    if last > 0 {
      assert answers(0).Some?;
    }
  }

  method VerifyStore(names: seq<string>, answers: nat -> Option<seq<Achievement>>) returns (verified: Option<seq<Achievement>>)
    ensures ReadBack(names, answers, verified)
  {
    var attempt: nat := 0;
    verified := answers(0);
    while verified.Some? && !AllAchieved(names, verified.value) && attempt + 1 < VERIFY_ATTEMPTS
      invariant attempt < VERIFY_ATTEMPTS && verified == answers(attempt)
      invariant forall k: nat :: k < attempt ==> answers(k).Some? && !AllAchieved(names, answers(k).value)
    {
      attempt := attempt + 1;
      verified := answers(attempt);
    }
  }

  /** Steam's answer: at once if nothing is to be stored, none if the store is not accepted. */
  ghost predicate Answered(names: seq<string>, sent: seq<StoreStat>, accepted: bool, answers: nat -> Option<seq<Achievement>>,
                           verified: Option<seq<Achievement>>)
  {
    if sent == [] then verified == answers(0)
    else if !accepted then verified == None
    else ReadBack(names, answers, verified)
  }

  /** The read-back keeps every earlier unlock and has every requested one. */
  ghost predicate Passes(current: seq<Achievement>, requested: seq<string>, verified: seq<Achievement>) {
    && AchievedIn(current) <= AchievedIn(verified)
    && forall n :: n in requested ==> Says(verified, n, true)
  }

  /** The only stats ever sent are the plan for the names against the values just read; an answer is only
      reported after a store that was accepted, or when there was nothing to store. */
  method StoreMissingUnlocks(definitions: seq<AchievementBit>, stats: seq<CurrentStat>, names: seq<string>, accepted: bool,
                             answers: nat -> Option<seq<Achievement>>)
    returns (verified: Option<seq<Achievement>>, sent: seq<StoreStat>)
    requires names != []
    ensures if AllUsable(definitions, stats, names)
            then Sends(definitions, stats, names, sent) && Answered(names, sent, accepted, answers, verified)
            else sent == [] && verified == None
  {
    hide Sends, AllUsable, ReadBack;
    var r := BuildAdditiveStats(definitions, stats, names);
    if r.Rejected? {
      return None, [];
    }
    sent := r.plan;
    if sent == [] {
      return answers(0), [];
    }
    if !accepted {
      return None, sent;
    }
    verified := VerifyStore(names, answers);
  }

  predicate Known(index: Index, values: Values, name: string) {
    ProblemOf(index, values, name) == None
  }

  /** Steam's list says of each name it has whether its bit is set. */
  ghost predicate Reflects(list: seq<Achievement>, index: Index, values: Values) {
    forall a :: a in list ==>
      Known(index, values, a.name) && (a.achieved <==> Has(values[index[a.name].statId], index[a.name].bit))
  }

  ghost predicate Lists(list: seq<Achievement>, name: string) {
    exists a :: a in list && a.name == name
  }

  lemma AppliedUnlocks(index: Index, values: Values, names: seq<string>, plan: seq<StoreStat>, name: string)
    requires PlanFor(index, values, names, plan) && Known(index, values, name)
    ensures Known(index, Applied(values, plan), name)
    ensures var d := index[name];
            Has(Applied(values, plan)[d.statId], d.bit) <==> Has(values[d.statId], d.bit) || Asked(index, names, d.statId, d.bit)
  {
    hide PlanFor, Has, Asked;
    PlanAddsExactly(index, values, names, plan, index[name].statId);
  }

  /** Against a Steam that stores the plan and answers with what it holds, the read-back passes every check:
      no earlier unlock is lost, every requested name is achieved, and nothing is unlocked unasked. */
  lemma HonestSteamPasses(index: Index, values: Values, names: seq<string>, plan: seq<StoreStat>,
                          current: seq<Achievement>, after: seq<Achievement>)
    requires Ready(index, values, names) && PlanFor(index, values, names, plan)
    requires Reflects(current, index, values) && Reflects(after, index, Applied(values, plan))
    requires forall n :: Lists(current, n) <==> Lists(after, n)
    requires forall n :: n in names ==> Lists(current, n)
    ensures AchievedIn(current) <= AchievedIn(after) && AllAchieved(names, after)
    ensures forall a :: a in after && a.achieved ==>
              a.name in AchievedIn(current) || Asked(index, names, index[a.name].statId, index[a.name].bit)
  {
    hide PlanFor, Has, Ready;
    forall n | n in AchievedIn(current)
      ensures n in AchievedIn(after)
    {
      var a :| a in current && a.achieved && a.name == n;
      AppliedUnlocks(index, values, names, plan, n);
      assert Lists(current, n);
      var b :| b in after && b.name == n;
    }
    forall n | n in names
      ensures exists a :: a in after && a.name == n && a.achieved
    {
      assert Lists(current, n);
      var a :| a in current && a.name == n;
      AppliedUnlocks(index, values, names, plan, n);
      var b :| b in after && b.name == n;
    }
    forall a | a in after && a.achieved
      ensures a.name in AchievedIn(current) || Asked(index, names, index[a.name].statId, index[a.name].bit)
    {
      assert Lists(after, a.name);
      var b :| b in current && b.name == a.name;
      AppliedUnlocks(index, values, names, plan, a.name);
    }
  }

  /** `names` are those the local saves unlock. Steam's side is what it lists, its schema and values just
      before a store, whether it accepts the store, and its answers after it. */
  class AchievementSync {
    var cache: map<string, bool>
    var saveUnlocks: set<string>

    method SyncFromLocalSaves(names: seq<string>, current: seq<Achievement>, definitions: seq<AchievementBit>,
                              stats: seq<CurrentStat>, accepted: bool, answers: nat -> Option<seq<Achievement>>)
      returns (added: Option<nat>, requested: seq<string>, sent: seq<StoreStat>)
      modifies this
      ensures saveUnlocks == set n | n in names
      ensures forall n :: n in requested <==> n in names && Says(current, n, false)
      ensures requested == [] ==> added == Some(0) && sent == []
      ensures names == [] ==> cache == old(cache)
      ensures names != [] && requested == [] ==> Caches(cache, current)
      ensures requested != [] && !AllUsable(definitions, stats, requested) ==>
                added == None && sent == [] && Caches(cache, current)
      ensures requested != [] && AllUsable(definitions, stats, requested) ==>
                (&& Sends(definitions, stats, requested, sent)
                 && exists verified ::
                      && Answered(requested, sent, accepted, answers, verified)
                      && (added.Some? <==> verified.Some? && Passes(current, requested, verified.value))
                      && (added.Some? ==> added.value == |requested|)
                      && Caches(cache, if verified.Some? && AchievedIn(current) <= AchievedIn(verified.value)
                                       then verified.value else current))
    {
      hide Sends, AllUsable, Answered, Says, CacheOf, Caches;
      saveUnlocks := set n | n in names;
      requested, sent := [], [];
      if names == [] {
        return Some(0), [], [];
      }
      var previously := set a | a in current && a.achieved :: a.name;
      cache := CacheOf(current);
      CacheOfCaches(current);
      for k := 0 to |names|
        invariant cache == CacheOf(current)
        invariant forall n :: n in requested <==> n in names[..k] && n in cache && !cache[n]
      {
        assert names[..k + 1] == names[..k] + [names[k]];
        if names[k] in cache && !cache[names[k]] {
          requested := requested + [names[k]];
        }
      }
      assert names[..|names|] == names;
      CachedIs(cache, current);
      if requested == [] {
        return Some(0), [], [];
      }
      var verified: Option<seq<Achievement>>;
      verified, sent := StoreMissingUnlocks(definitions, stats, requested, accepted, answers);
      if verified.None? {
        return None, requested, sent;
      }
      var preserved := EnsureNoExistingUnlocksLost(previously, verified.value);
      if !preserved {
        return None, requested, sent;
      }
      cache := CacheOf(verified.value);
      CacheOfCaches(verified.value);
      CachedIs(cache, verified.value);
      var count := CountAchieved(requested);
      added := if count == |requested| then Some(count) else None;
    }

    method CountAchieved(requested: seq<string>) returns (count: nat)
      ensures count <= |requested|
      ensures count == |requested| <==> forall n :: n in requested ==> n in cache && cache[n]
    {
      count := 0;
      for k := 0 to |requested|
        invariant count <= k
        invariant count == k <==> forall n :: n in requested[..k] ==> n in cache && cache[n]
      {
        assert requested[..k + 1] == requested[..k] + [requested[k]];
        if requested[k] in cache && cache[requested[k]] {
          count := count + 1;
        }
      }
      assert requested[..|requested|] == requested;
    }
  }
}
