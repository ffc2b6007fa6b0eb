/** UTM helpers of server/src/utils/utm.utils.ts: writing `utm_<field>`
    query parameters into a URL, and the shape check on a UTM object. */
module UtmUtils {
  import opened Common
  import opened Platform

  datatype UtmField = Source | Medium | Campaign | Term | Content

  /** `VALID_UTM_KEYS`. */
  const ValidUtmKeys: seq<string> := ["source", "medium", "campaign", "term", "content"]

  const UtmPrefix: string := "utm_"

  function FieldKey(f: UtmField): string {
    match f
    case Source => "source"
    case Medium => "medium"
    case Campaign => "campaign"
    case Term => "term"
    case Content => "content"
  }

  /** `UTM_FIELD_TO_PARAM`: the query parameter a field is written to. */
  function ParamName(f: UtmField): string {
    UtmPrefix + FieldKey(f)
  }

  /** One own property of a `UtmParams` object, in `Object.entries` order;
      a `None` value is `undefined`. */
  datatype UtmEntry = UtmEntry(field: UtmField, value: Option<string>)

  // ---------------------------------------------------------------------
  // The query list of a URL and URLSearchParams `set()`
  // ---------------------------------------------------------------------

  /** How many pairs of `q` are named `n`. */
  function CountName(q: seq<QueryPair>, n: string): nat {
    if q == [] then 0 else (if q[0].name == n then 1 else 0) + CountName(q[1..], n)
  }

  /** `searchParams.get(n)`: the value of the first pair named `n`. */
  function Lookup(q: seq<QueryPair>, n: string): (r: Option<string>)
    ensures r.Some? <==> CountName(q, n) > 0
  {
    if q == [] then None
    else if q[0].name == n then Some(q[0].value)
    else Lookup(q[1..], n)
  }

  /** The pairs of `q` whose names are not in `names`, in their order. */
  function Without(q: seq<QueryPair>, names: set<string>): (r: seq<QueryPair>)
    ensures forall i :: 0 <= i < |r| ==> r[i].name !in names
  {
    if q == [] then []
    else if q[0].name in names then Without(q[1..], names)
    else [q[0]] + Without(q[1..], names)
  }

  /** Filtering removes every pair with a filtered name and no other. */
  lemma {:induction false} WithoutCount(q: seq<QueryPair>, names: set<string>, m: string)
    ensures m in names ==> CountName(Without(q, names), m) == 0
    ensures m !in names ==> CountName(Without(q, names), m) == CountName(q, m)
                            && Lookup(Without(q, names), m) == Lookup(q, m)
  {
    if q != [] {
      WithoutCount(q[1..], names, m);
      if q[0].name !in names {
        var r := Without(q[1..], names);
        assert ([q[0]] + r)[1..] == r;
      }
    }
  }

  lemma {:induction false} WithoutAbsent(q: seq<QueryPair>, names: set<string>)
    requires forall i :: 0 <= i < |q| ==> q[i].name !in names
    ensures Without(q, names) == q
  {
    if q != [] {
      WithoutAbsent(q[1..], names);
    }
  }

  /** Filtering by a smaller set first changes nothing. */
  lemma {:induction false} WithoutCompose(q: seq<QueryPair>, inner: set<string>, outer: set<string>)
    requires inner <= outer
    ensures Without(Without(q, inner), outer) == Without(q, outer)
  {
    if q != [] {
      WithoutCompose(q[1..], inner, outer);
      if q[0].name !in inner {
        assert Without(q, inner) == [q[0]] + Without(q[1..], inner);
        assert ([q[0]] + Without(q[1..], inner))[1..] == Without(q[1..], inner);
      }
    }
  }

  /** The position of the first pair named `n`, if any. */
  function FirstNamed(q: seq<QueryPair>, n: string): (r: Option<nat>)
    ensures r.Some? ==> r.value < |q| && q[r.value].name == n
    ensures r.Some? ==> forall j :: 0 <= j < r.value ==> q[j].name != n
    ensures r.None? <==> CountName(q, n) == 0
  {
    if q == [] then None
    else if q[0].name == n then Some(0)
    else match FirstNamed(q[1..], n)
      case None => None
      case Some(i) =>
        assert forall j :: 1 <= j <= i ==> q[j] == q[1..][j - 1];
        Some(i + 1)
  }

  /** Give the first pair named `n` the value `v` and drop the later ones. */
  function SetFirst(q: seq<QueryPair>, n: string, v: string): (r: seq<QueryPair>)
    requires CountName(q, n) > 0
    ensures CountName(r, n) == 1 && Lookup(r, n) == Some(v)
    ensures Without(r, {n}) == Without(q, {n})
  {
    if q[0].name == n then
      var rest := Without(q[1..], {n});
      WithoutAbsent(rest, {n});
      WithoutCount(q[1..], {n}, n);
      assert ([QueryPair(n, v)] + rest)[1..] == rest;
      [QueryPair(n, v)] + rest
    else
      var tail := SetFirst(q[1..], n, v);
      assert ([q[0]] + tail)[1..] == tail;
      [q[0]] + tail
  }

  /** The new pair stands where the first pair named `n` stood. */
  lemma {:induction false} SetFirstPosition(q: seq<QueryPair>, n: string, v: string)
    requires CountName(q, n) > 0
    ensures var i := FirstNamed(q, n).value;
            SetFirst(q, n, v) == q[..i] + [QueryPair(n, v)] + Without(q[i + 1..], {n})
  {
    if q[0].name == n {
      assert q[..0] == [];
    } else {
      var tail := q[1..];
      SetFirstPosition(tail, n, v);
      var i := FirstNamed(tail, n).value;
      assert FirstNamed(q, n).value == i + 1;
      SlicesOfTail(q, i);
      ConsAssociates(q[0], tail[..i], [QueryPair(n, v)], Without(tail[i + 1..], {n}));
    }
  }

  lemma SlicesOfTail<T>(q: seq<T>, i: nat)
    requires i + 1 < |q|
    ensures q[..i + 1] == [q[0]] + q[1..][..i] && q[i + 2..] == q[1..][i + 1..]
  {
  }

  lemma ConsAssociates<T>(h: T, a: seq<T>, b: seq<T>, c: seq<T>)
    ensures [h] + (a + b + c) == ([h] + a) + b + c
  {
  }

  /** URLSearchParams `set(n, v)` (WHATWG URL Standard, section 6.2): if a
      pair named `n` exists, the first one takes the value `v` and the others
      are removed; otherwise the pair is appended. */
  function SetParam(q: seq<QueryPair>, n: string, v: string): (r: seq<QueryPair>)
    // Afterwards there is exactly one pair named n, holding v ...
    ensures CountName(r, n) == 1 && Lookup(r, n) == Some(v)
    // ... every other pair is kept, in order ...
    ensures Without(r, {n}) == Without(q, {n})
    // ... and a new name goes to the end.
    ensures CountName(q, n) == 0 ==> r == q + [QueryPair(n, v)]
  {
    if CountName(q, n) == 0 then
      AppendCount(q, QueryPair(n, v));
      WithoutAppend(q, QueryPair(n, v), {n});
      q + [QueryPair(n, v)]
    else
      SetFirst(q, n, v)
  }

  /** An existing name keeps the place of its first pair; its later pairs go. */
  lemma SetParamPosition(q: seq<QueryPair>, n: string, v: string)
    requires FirstNamed(q, n).Some?
    ensures var i := FirstNamed(q, n).value;
            SetParam(q, n, v) == q[..i] + [QueryPair(n, v)] + Without(q[i + 1..], {n})
  {
    SetFirstPosition(q, n, v);
  }

  /** `set` leaves the count and first value of every other name as they were. */
  lemma SetParamOthers(q: seq<QueryPair>, n: string, v: string, m: string)
    requires m != n
    ensures CountName(SetParam(q, n, v), m) == CountName(q, m)
    ensures Lookup(SetParam(q, n, v), m) == Lookup(q, m)
  {
    WithoutCount(SetParam(q, n, v), {n}, m);
    WithoutCount(q, {n}, m);
  }

  lemma {:induction false} AppendCount(q: seq<QueryPair>, p: QueryPair)
    ensures forall m :: CountName(q + [p], m) == CountName(q, m) + (if p.name == m then 1 else 0)
    ensures forall m :: Lookup(q + [p], m) == (if Lookup(q, m).Some? then Lookup(q, m)
                                              else if p.name == m then Some(p.value) else None)
  {
    if q != [] {
      assert (q + [p])[1..] == q[1..] + [p];
      AppendCount(q[1..], p);
    }
  }

  lemma {:induction false} WithoutAppend(q: seq<QueryPair>, p: QueryPair, names: set<string>)
    ensures Without(q + [p], names) == Without(q, names) + Without([p], names)
  {
    if q != [] {
      assert (q + [p])[1..] == q[1..] + [p];
      WithoutAppend(q[1..], p, names);
    }
  }

  /** `forEach` over the pairs, calling `set` for each, in order. */
  function SetAll(q: seq<QueryPair>, pairs: seq<QueryPair>): seq<QueryPair>
    decreases |pairs|
  {
    if pairs == [] then q else SetAll(SetParam(q, pairs[0].name, pairs[0].value), pairs[1..])
  }

  /** The names that `pairs` sets. */
  function NameSet(pairs: seq<QueryPair>): set<string> {
    set i | 0 <= i < |pairs| :: pairs[i].name
  }

  lemma NameSetCons(pairs: seq<QueryPair>)
    requires pairs != []
    ensures NameSet(pairs) == {pairs[0].name} + NameSet(pairs[1..])
  {
    forall m | m in NameSet(pairs) ensures m in {pairs[0].name} + NameSet(pairs[1..]) {
      var i :| 0 <= i < |pairs| && pairs[i].name == m;
      if i > 0 { assert pairs[1..][i - 1].name == m; }
    }
    forall m | m in NameSet(pairs[1..]) ensures m in NameSet(pairs) {
      var i :| 0 <= i < |pairs[1..]| && pairs[1..][i].name == m;
      assert pairs[i + 1].name == m;
    }
  }

  /** The value the last pair named `n` carries: the one that wins. */
  function LastValue(pairs: seq<QueryPair>, n: string): Option<string> {
    if pairs == [] then None
    else match LastValue(pairs[1..], n)
      case Some(v) => Some(v)
      case None => if pairs[0].name == n then Some(pairs[0].value) else None
  }

  lemma {:induction false} LastValueDefined(pairs: seq<QueryPair>, n: string)
    ensures LastValue(pairs, n).Some? <==> n in NameSet(pairs)
  {
    if pairs != [] {
      LastValueDefined(pairs[1..], n);
      NameSetCons(pairs);
    }
  }

  /** Pairs whose names are not set survive unchanged and in order. */
  lemma {:induction false} SetAllKeepsOthers(q: seq<QueryPair>, pairs: seq<QueryPair>, names: set<string>)
    requires NameSet(pairs) <= names
    ensures Without(SetAll(q, pairs), names) == Without(q, names)
    decreases |pairs|
  {
    if pairs != [] {
      var n := pairs[0].name;
      var q1 := SetParam(q, n, pairs[0].value);
      NameSetCons(pairs);
      SetAllKeepsOthers(q1, pairs[1..], names);
      WithoutCompose(q1, {n}, names);
      WithoutCompose(q, {n}, names);
    }
  }

  /** Counts and first values of names that are not set are unchanged. */
  lemma SetAllUntouched(q: seq<QueryPair>, pairs: seq<QueryPair>, m: string)
    requires m !in NameSet(pairs)
    ensures CountName(SetAll(q, pairs), m) == CountName(q, m)
    ensures Lookup(SetAll(q, pairs), m) == Lookup(q, m)
  {
    SetAllKeepsOthers(q, pairs, NameSet(pairs));
    WithoutCount(SetAll(q, pairs), NameSet(pairs), m);
    WithoutCount(q, NameSet(pairs), m);
  }

  /** After the loop, every name that was set occurs exactly once and holds
      the value of its last pair. */
  lemma {:induction false} SetAllSettles(q: seq<QueryPair>, pairs: seq<QueryPair>, n: string)
    requires n in NameSet(pairs)
    ensures CountName(SetAll(q, pairs), n) == 1
    ensures Lookup(SetAll(q, pairs), n) == LastValue(pairs, n)
    decreases |pairs|
  {
    var q1 := SetParam(q, pairs[0].name, pairs[0].value);
    LastValueDefined(pairs[1..], n);
    NameSetCons(pairs);
    if n in NameSet(pairs[1..]) {
      SetAllSettles(q1, pairs[1..], n);
    } else {
      SetAllUntouched(q1, pairs[1..], n);
    }
  }

  /** Setting names none of which occur yet, each once, appends them in order. */
  lemma {:induction false} SetAllFresh(q: seq<QueryPair>, pairs: seq<QueryPair>)
    requires forall i :: 0 <= i < |pairs| ==> CountName(q, pairs[i].name) == 0
    requires forall i, j :: 0 <= i < j < |pairs| ==> pairs[i].name != pairs[j].name
    ensures SetAll(q, pairs) == q + pairs
    decreases |pairs|
  {
    if pairs != [] {
      var p, rest := pairs[0], pairs[1..];
      var q1 := q + [p];
      assert CountName(q, p.name) == 0;
      assert SetParam(q, p.name, p.value) == q1;
      AppendCount(q, p);
      forall i | 0 <= i < |rest| ensures CountName(q1, rest[i].name) == 0 {
        assert rest[i] == pairs[i + 1];
        assert p.name != pairs[i + 1].name;
        assert CountName(q, pairs[i + 1].name) == 0;
      }
      forall i, j | 0 <= i < j < |rest| ensures rest[i].name != rest[j].name {
        assert rest[i] == pairs[i + 1] && rest[j] == pairs[j + 1];
      }
      SetAllFresh(q1, rest);
      assert q1 + rest == q + pairs;
    }
  }

  // ---- idempotence ------------------------------------------------------

  /** Every pair keeps its place; a pair whose name is set takes the winning value. */
  function Overwrite(q: seq<QueryPair>, pairs: seq<QueryPair>): (r: seq<QueryPair>)
    ensures |r| == |q|
  {
    seq(|q|, i requires 0 <= i < |q| =>
      match LastValue(pairs, q[i].name)
      case Some(v) => QueryPair(q[i].name, v)
      case None => q[i])
  }

  lemma {:induction false} SameNamesSameCounts(a: seq<QueryPair>, b: seq<QueryPair>)
    requires |a| == |b| && forall i :: 0 <= i < |a| ==> a[i].name == b[i].name
    ensures forall m :: CountName(a, m) == CountName(b, m)
  {
    if a != [] {
      SameNamesSameCounts(a[1..], b[1..]);
    }
  }

  /** The only pair with a given name is the one `get` returns. */
  lemma {:induction false} SingleIsLookedUp(q: seq<QueryPair>, i: nat)
    requires i < |q| && CountName(q, q[i].name) == 1
    ensures Lookup(q, q[i].name) == Some(q[i].value)
  {
    if q[0].name != q[i].name {
      assert q[1..][i - 1] == q[i];
      SingleIsLookedUp(q[1..], i - 1);
    } else if i > 0 {
      assert q[1..][i - 1] == q[i];
      CountPositive(q[1..], i - 1);
    }
  }

  lemma {:induction false} CountPositive(q: seq<QueryPair>, i: nat)
    requires i < |q|
    ensures CountName(q, q[i].name) > 0
  {
    if i > 0 {
      assert q[1..][i - 1] == q[i];
      CountPositive(q[1..], i - 1);
    }
  }

  /** `set` on a name that occurs once only changes that pair's value. */
  lemma {:induction false} SetParamSingle(q: seq<QueryPair>, n: string, v: string)
    requires CountName(q, n) == 1
    ensures SetParam(q, n, v) == seq(|q|, i requires 0 <= i < |q| =>
                                   if q[i].name == n then QueryPair(n, v) else q[i])
  {
    var r := seq(|q|, i requires 0 <= i < |q| => if q[i].name == n then QueryPair(n, v) else q[i]);
    assert SetParam(q, n, v) == SetFirst(q, n, v);
    if q[0].name == n {
      WithoutAbsentCount(q[1..], n);
      WithoutAbsent(q[1..], {n});
      assert SetFirst(q, n, v) == [QueryPair(n, v)] + Without(q[1..], {n});
      assert r == [QueryPair(n, v)] + q[1..];
    } else {
      assert CountName(q[1..], n) == 1;
      SetParamSingle(q[1..], n, v);
      assert SetParam(q[1..], n, v) == SetFirst(q[1..], n, v);
      assert SetFirst(q, n, v) == [q[0]] + SetFirst(q[1..], n, v);
      assert r == [q[0]] + r[1..];
    }
  }

  lemma {:induction false} WithoutAbsentCount(q: seq<QueryPair>, n: string)
    requires CountName(q, n) == 0
    ensures forall i :: 0 <= i < |q| ==> q[i].name !in {n}
  {
    forall i | 0 <= i < |q| ensures q[i].name != n {
      if q[i].name == n { CountPositive(q, i); }
    }
  }

  /** When every name to be set occurs exactly once, the loop just overwrites values in place. */
  lemma {:induction false} SetAllOverwrites(q: seq<QueryPair>, pairs: seq<QueryPair>)
    requires forall m :: m in NameSet(pairs) ==> CountName(q, m) == 1
    ensures SetAll(q, pairs) == Overwrite(q, pairs)
    decreases |pairs|
  {
    if pairs == [] {
      assert Overwrite(q, pairs) == q;
    } else {
      var n, v := pairs[0].name, pairs[0].value;
      NameSetCons(pairs);
      SetParamSingle(q, n, v);
      var q1 := SetParam(q, n, v);
      SameNamesSameCounts(q, q1);
      SetAllOverwrites(q1, pairs[1..]);
      forall i | 0 <= i < |q| ensures Overwrite(q1, pairs[1..])[i] == Overwrite(q, pairs)[i] {
        var m := q[i].name;
        match LastValue(pairs[1..], m)
        case Some(_) =>
        case None =>
      }
    }
  }

  /** Applying the same pairs twice is applying them once. */
  lemma SetAllIdempotent(q: seq<QueryPair>, pairs: seq<QueryPair>)
    ensures SetAll(SetAll(q, pairs), pairs) == SetAll(q, pairs)
  {
    var r := SetAll(q, pairs);
    forall m | m in NameSet(pairs) ensures CountName(r, m) == 1 {
      SetAllSettles(q, pairs, m);
    }
    SetAllOverwrites(r, pairs);
    forall i | 0 <= i < |r| ensures Overwrite(r, pairs)[i] == r[i] {
      var m := r[i].name;
      LastValueDefined(pairs, m);
      if m in NameSet(pairs) {
        SetAllSettles(q, pairs, m);
        SingleIsLookedUp(r, i);
      }
    }
  }

  // ---------------------------------------------------------------------
  // appendUtmParams
  // ---------------------------------------------------------------------

  /** The value of the last defined entry for field `f`: the one whose `set` wins. */
  function LastDefined(utm: seq<UtmEntry>, f: UtmField): Option<string> {
    if utm == [] then None
    else match LastDefined(utm[1..], f)
      case Some(v) => Some(v)
      case None => if utm[0].field == f then utm[0].value else None
  }

  /** Different fields are written to different parameters. */
  lemma ParamNameInjective(f: UtmField, g: UtmField)
    ensures ParamName(f) == ParamName(g) ==> f == g
  {
    if f != g {
      assert FieldKey(f) != FieldKey(g);
      assert ParamName(f)[4..] == FieldKey(f) && ParamName(g)[4..] == FieldKey(g);
    }
  }

  /** The `filter(isDefined)` step: one `(utm_<field>, value)` pair per
      defined entry, in entry order. Each field's parameter ends up carrying
      the field's last defined value; an undefined entry contributes nothing. */
  function DefinedPairs(utm: seq<UtmEntry>): (pairs: seq<QueryPair>)
    ensures |pairs| <= |utm|
    ensures forall f :: LastValue(pairs, ParamName(f)) == LastDefined(utm, f)
    ensures forall i :: 0 <= i < |pairs| ==> exists f :: pairs[i].name == ParamName(f)
  {
    if utm == [] then []
    else
      var rest := DefinedPairs(utm[1..]);
      match utm[0].value
      case None => rest
      case Some(v) =>
        var x := QueryPair(ParamName(utm[0].field), v);
        assert ([x] + rest)[1..] == rest;
        forall f ensures LastValue([x] + rest, ParamName(f)) == LastDefined(utm, f) {
          ParamNameInjective(f, utm[0].field);
        }
        [x] + rest
  }

  /** The pair a defined entry is written as. */
  function EntryPair(e: UtmEntry): QueryPair
    requires e.value.Some?
  {
    QueryPair(ParamName(e.field), e.value.value)
  }

  /** `p` is the pair of some defined entry of `utm`. */
  ghost predicate FromDefinedEntry(p: QueryPair, utm: seq<UtmEntry>) {
    exists j :: 0 <= j < |utm| && utm[j].value.Some? && p == EntryPair(utm[j])
  }

  /** Every pair is the pair of a defined entry. */
  lemma {:induction false} DefinedPairsFromEntries(utm: seq<UtmEntry>)
    ensures forall i :: 0 <= i < |DefinedPairs(utm)| ==> FromDefinedEntry(DefinedPairs(utm)[i], utm)
  {
    if utm != [] {
      var tail := utm[1..];
      DefinedPairsFromEntries(tail);
      var rest := DefinedPairs(tail);
      forall k | 0 <= k < |rest| ensures FromDefinedEntry(rest[k], utm) {
        FromDefinedEntryOfTail(rest[k], utm);
      }
      if utm[0].value.Some? {
        var pairs := [EntryPair(utm[0])] + rest;
        assert DefinedPairs(utm) == pairs;
        assert FromDefinedEntry(pairs[0], utm) by { assert pairs[0] == EntryPair(utm[0]); }
        assert forall i :: 1 <= i < |pairs| ==> pairs[i] == rest[i - 1];
      } else {
        assert DefinedPairs(utm) == rest;
      }
    }
  }

  lemma FromDefinedEntryOfTail(p: QueryPair, utm: seq<UtmEntry>)
    requires utm != [] && FromDefinedEntry(p, utm[1..])
    ensures FromDefinedEntry(p, utm)
  {
    var j :| 0 <= j < |utm[1..]| && utm[1..][j].value.Some? && p == EntryPair(utm[1..][j]);
    assert utm[1..][j] == utm[j + 1];
  }

  /** When every entry is defined, the pairs are the entries' pairs, in entry order. */
  lemma {:induction false} DefinedPairsAllDefined(utm: seq<UtmEntry>)
    requires forall j :: 0 <= j < |utm| ==> utm[j].value.Some?
    ensures |DefinedPairs(utm)| == |utm|
    ensures forall i :: 0 <= i < |utm| ==> DefinedPairs(utm)[i] == EntryPair(utm[i])
  {
    if utm != [] {
      assert forall j :: 0 <= j < |utm[1..]| ==> utm[1..][j] == utm[j + 1];
      DefinedPairsAllDefined(utm[1..]);
      assert DefinedPairs(utm) == [EntryPair(utm[0])] + DefinedPairs(utm[1..]);
    }
  }

  /** Filtering keeps entry order: the pairs of a concatenation are the
      pairs of each part, one after the other. */
  lemma {:induction false} DefinedPairsAppend(a: seq<UtmEntry>, b: seq<UtmEntry>)
    ensures DefinedPairs(a + b) == DefinedPairs(a) + DefinedPairs(b)
  {
    if a != [] {
      var ab := a + b;
      assert ab[0] == a[0] && ab[1..] == a[1..] + b;
      DefinedPairsAppend(a[1..], b);
      if a[0].value.Some? {
        var x := EntryPair(a[0]);
        assert DefinedPairs(ab) == [x] + DefinedPairs(ab[1..]);
        assert DefinedPairs(a) == [x] + DefinedPairs(a[1..]);
      } else {
        assert DefinedPairs(ab) == DefinedPairs(ab[1..]);
      }
    } else {
      assert a + b == b;
    }
  }

  /** A field that no entry has gives no pair its name. */
  lemma DefinedPairsAvoid(utm: seq<UtmEntry>, f: UtmField)
    requires forall j :: 0 <= j < |utm| ==> utm[j].field != f
    ensures forall k :: 0 <= k < |DefinedPairs(utm)| ==> DefinedPairs(utm)[k].name != ParamName(f)
  {
    var rest := DefinedPairs(utm);
    DefinedPairsFromEntries(utm);
    forall k | 0 <= k < |rest| ensures rest[k].name != ParamName(f) {
      assert FromDefinedEntry(rest[k], utm);
      var j :| 0 <= j < |utm| && utm[j].value.Some? && rest[k] == EntryPair(utm[j]);
      ParamNameInjective(f, utm[j].field);
    }
  }

  /** No two pairs share a name. */
  predicate DistinctNames(pairs: seq<QueryPair>) {
    forall i, j :: 0 <= i < j < |pairs| ==> pairs[i].name != pairs[j].name
  }

  lemma DistinctNamesCons(x: QueryPair, rest: seq<QueryPair>)
    requires DistinctNames(rest)
    requires forall k :: 0 <= k < |rest| ==> rest[k].name != x.name
    ensures DistinctNames([x] + rest)
  {
    var pairs := [x] + rest;
    forall i, j | 0 <= i < j < |pairs| ensures pairs[i].name != pairs[j].name {
      assert pairs[j] == rest[j - 1];
      if i > 0 { assert pairs[i] == rest[i - 1]; }
    }
  }

  /** No two entries are for the same field. */
  predicate DistinctFields(utm: seq<UtmEntry>) {
    forall i, j :: 0 <= i < j < |utm| ==> utm[i].field != utm[j].field
  }

  /** Entries with different fields give pairs with different names. */
  lemma {:induction false} DefinedPairsDistinct(utm: seq<UtmEntry>)
    requires DistinctFields(utm)
    ensures DistinctNames(DefinedPairs(utm))
  {
    if utm != [] {
      var tail := utm[1..];
      assert forall j :: 0 <= j < |tail| ==> tail[j] == utm[j + 1];
      assert DistinctFields(tail);
      DefinedPairsDistinct(tail);
      var rest := DefinedPairs(tail);
      if utm[0].value.Some? {
        DefinedPairsAvoid(tail, utm[0].field);
        DistinctNamesCons(EntryPair(utm[0]), rest);
        assert DefinedPairs(utm) == [EntryPair(utm[0])] + rest;
      } else {
        assert DefinedPairs(utm) == rest;
      }
    }
  }

  /** `appendUtmParamsToUrl`: the URL with each defined field `set` as
      `utm_<field>`. Every `set` rewrites the URL's query text from the new
      list (WHATWG URL Standard, section 6.2, "update steps"), so the text is
      serialized afresh once anything was set and is left as parsed otherwise. */
  function AppendUtmParamsToUrl(u: Url, utm: seq<UtmEntry>): (r: Url)
    ensures r.prefix == u.prefix && r.hostname == u.hostname && r.port == u.port && r.fragment == u.fragment
    ensures DefinedPairs(utm) == [] ==> r == u
    ensures DefinedPairs(utm) != [] ==> r.search == Some(EncodeQuery(r.query))
  {
    var pairs := DefinedPairs(utm);
    if pairs == [] then u
    else
      var q := SetAll(u.query, pairs);
      u.(query := q, search := Some(EncodeQuery(q)))
  }

  /** With distinct fields, none of whose parameters the URL already has,
      the defined fields are appended after the existing parameters in
      entry order. */
  lemma AppendUtmParamsFresh(u: Url, utm: seq<UtmEntry>)
    requires DistinctFields(utm)
    requires forall j :: 0 <= j < |utm| ==> CountName(u.query, ParamName(utm[j].field)) == 0
    ensures AppendUtmParamsToUrl(u, utm).query == u.query + DefinedPairs(utm)
  {
    DefinedPairsDistinct(utm);
    DefinedPairsAbsent(utm, u.query);
    SetAllFresh(u.query, DefinedPairs(utm));
  }

  /** Names no entry's parameter has in `q` are the only names the pairs carry. */
  lemma {:induction false} DefinedPairsAbsent(utm: seq<UtmEntry>, q: seq<QueryPair>)
    requires forall j :: 0 <= j < |utm| ==> CountName(q, ParamName(utm[j].field)) == 0
    ensures forall i :: 0 <= i < |DefinedPairs(utm)| ==> CountName(q, DefinedPairs(utm)[i].name) == 0
  {
    if utm != [] {
      var tail := utm[1..];
      assert forall j :: 0 <= j < |tail| ==> tail[j] == utm[j + 1];
      DefinedPairsAbsent(tail, q);
      var rest := DefinedPairs(tail);
      if utm[0].value.Some? {
        var pairs := [EntryPair(utm[0])] + rest;
        assert DefinedPairs(utm) == pairs;
        assert forall i :: 1 <= i < |pairs| ==> pairs[i] == rest[i - 1];
      } else {
        assert DefinedPairs(utm) == rest;
      }
    }
  }

  /** `url.searchParams` of a parsed URL, which `appendUtmParamsToUrl`
      updates in place, together with the query text of the URL it belongs
      to, which every `set` rewrites. */
  class SearchParams {
    var pairs: seq<QueryPair>
    var search: Option<string>

    constructor (pairs: seq<QueryPair>, search: Option<string>)
      ensures this.pairs == pairs && this.search == search
    {
      this.pairs := pairs;
      this.search := search;
    }

    /** `set(name, value)`, followed by the update of the URL's query text. */
    method Set(name: string, value: string)
      modifies this
      ensures pairs == SetParam(old(pairs), name, value)
      ensures search == Some(EncodeQuery(pairs))
      ensures CountName(pairs, name) == 1 && Lookup(pairs, name) == Some(value)
    {
      pairs := SetParam(pairs, name, value);
      search := Some(EncodeQuery(pairs));
    }
  }

  /** The `forEach` of `appendUtmParamsToUrl`, applied to the URL's own
      parameters: the result is the query of `AppendUtmParamsToUrl`, and
      the query text is untouched exactly when nothing was set. */
  method AppendUtmParamsInPlace(params: SearchParams, utm: seq<UtmEntry>)
    modifies params
    ensures params.pairs == SetAll(old(params.pairs), DefinedPairs(utm))
    ensures params.search == if DefinedPairs(utm) == [] then old(params.search)
                             else Some(EncodeQuery(params.pairs))
  {
    var pairs := DefinedPairs(utm);
    var i := 0;
    while i < |pairs|
      invariant 0 <= i <= |pairs|
      invariant SetAll(params.pairs, pairs[i..]) == SetAll(old(params.pairs), pairs)
      invariant i == 0 ==> params.search == old(params.search)
      invariant i > 0 ==> params.search == Some(EncodeQuery(params.pairs))
    {
      assert pairs[i..][0] == pairs[i] && pairs[i..][1..] == pairs[i + 1..];
      params.Set(pairs[i].name, pairs[i].value);
      i := i + 1;
    }
    assert pairs[i..] == [];
  }

  /** `appendUtmParams`: no UTM object, or a URL the constructor refuses,
      leaves the string as it was; otherwise the rewritten URL is serialized. */
  function AppendUtmParams(originalUrl: string, utm: Option<seq<UtmEntry>>, parse: UrlParser): (r: string)
    ensures utm.None? ==> r == originalUrl
    ensures parse(originalUrl).None? ==> r == originalUrl
    ensures utm.Some? && parse(originalUrl).Some? ==>
              r == Href(AppendUtmParamsToUrl(parse(originalUrl).value, utm.value))
    // With no defined field the parsed URL is serialized as it was parsed.
    ensures utm.Some? && DefinedPairs(utm.value) == [] && parse(originalUrl).Some? ==>
              r == Href(parse(originalUrl).value)
  {
    if utm.None? then originalUrl
    else match parse(originalUrl)
      case None => originalUrl
      case Some(u) => Href(AppendUtmParamsToUrl(u, utm.value))
  }

  /** Each defined field ends up as exactly one `utm_<field>` parameter with
      the field's (last) value; every parameter that is not written to keeps
      its place and value; and writing the same fields again changes nothing. */
  lemma AppendUtmParamsToUrlSpec(u: Url, utm: seq<UtmEntry>)
    ensures var r := AppendUtmParamsToUrl(u, utm);
            var pairs := DefinedPairs(utm);
            && (forall n :: n in NameSet(pairs) ==>
                  CountName(r.query, n) == 1 && Lookup(r.query, n) == LastValue(pairs, n))
            && Without(r.query, NameSet(pairs)) == Without(u.query, NameSet(pairs))
            && AppendUtmParamsToUrl(r, utm) == r
  {
    var pairs := DefinedPairs(utm);
    forall n | n in NameSet(pairs)
      ensures CountName(SetAll(u.query, pairs), n) == 1 && Lookup(SetAll(u.query, pairs), n) == LastValue(pairs, n)
    {
      SetAllSettles(u.query, pairs, n);
    }
    SetAllKeepsOthers(u.query, pairs, NameSet(pairs));
    SetAllIdempotent(u.query, pairs);
  }

  /** The documented example: `{source: "twitter", campaign: "promo"}` on
      `https://example.com/page` gives `?utm_source=twitter&utm_campaign=promo`. */
  lemma DocumentedExample(parse: UrlParser)
    requires parse("https://example.com/page") == Some(Url("https://example.com/page", "example.com", "", [], None, None))
    ensures AppendUtmParams("https://example.com/page",
                            Some([UtmEntry(Source, Some("twitter")), UtmEntry(Campaign, Some("promo"))]), parse)
            == "https://example.com/page" + "?" + "utm_source=twitter" + "&" + "utm_campaign=promo"
  {
    var utm := [UtmEntry(Source, Some("twitter")), UtmEntry(Campaign, Some("promo"))];
    var pairs := ExamplePairs();
    SetAllFresh([], pairs);
    var u := Url("https://example.com/page", "example.com", "", pairs, Some(EncodeQuery(pairs)), None);
    assert AppendUtmParamsToUrl(Url("https://example.com/page", "example.com", "", [], None, None), utm) == u;
    ExampleHref(u);
  }

  lemma ExamplePairs() returns (pairs: seq<QueryPair>)
    ensures pairs == [QueryPair("utm_source", "twitter"), QueryPair("utm_campaign", "promo")]
    ensures DefinedPairs([UtmEntry(Source, Some("twitter")), UtmEntry(Campaign, Some("promo"))]) == pairs
  {
    pairs := [QueryPair("utm_source", "twitter"), QueryPair("utm_campaign", "promo")];
    var utm := [UtmEntry(Source, Some("twitter")), UtmEntry(Campaign, Some("promo"))];
    assert ParamName(Source) == "utm_source";
    assert ParamName(Campaign) == "utm_campaign";
    assert utm[1..][1..] == [];
    assert DefinedPairs(utm[1..]) == [pairs[1]];
  }

  lemma ExampleHref(u: Url)
    requires u.prefix == "https://example.com/page" && u.fragment.None?
    requires u.search == Some(EncodeQuery([QueryPair("utm_source", "twitter"), QueryPair("utm_campaign", "promo")]))
    ensures Href(u) == "https://example.com/page" + "?" + "utm_source=twitter" + "&" + "utm_campaign=promo"
  {
    var second := [QueryPair("utm_campaign", "promo")];
    var pairs := [QueryPair("utm_source", "twitter")] + second;
    assert pairs[1..] == second;
    assert EncodeQuery(second) == "utm_campaign" + "=" + "promo";
    assert EncodeQuery(pairs) == "utm_source" + "=" + "twitter" + "&" + "utm_campaign=promo";
  }

  // ---------------------------------------------------------------------
  // isValidUtmParams
  // ---------------------------------------------------------------------

  /** A JavaScript value as it can arrive in a request body. */
  datatype Json =
    | JUndefined
    | JNull
    | JBool(b: bool)
    | JNumber(n: int)
    | JString(s: string)
    | JArray(items: seq<Json>)
    | JObject(members: seq<Member>)

  datatype Member = Member(key: string, value: Json)

  /** `String(n)` for a natural number. */
  function DecimalString(n: nat): (s: string)
    ensures |s| > 0 && forall i :: 0 <= i < |s| ==> IsDigit(s[i])
  {
    var d := ('0' as int + n % 10) as char;
    if n < 10 then [d] else DecimalString(n / 10) + [d]
  }

  /** `isObject`: `typeof v === "object" && v !== null`, which arrays satisfy too. */
  predicate IsObject(v: Json) {
    v.JArray? || v.JObject?
  }

  /** `Object.keys(v)`: an array's keys are its indices written in decimal. */
  function OwnKeys(v: Json): seq<string> {
    match v
    case JArray(items) => seq(|items|, i requires 0 <= i < |items| => DecimalString(i))
    case JObject(ms) => seq(|ms|, i requires 0 <= i < |ms| => ms[i].key)
    case _ => []
  }

  /** `Object.values(v)`. */
  function OwnValues(v: Json): seq<Json> {
    match v
    case JArray(items) => items
    case JObject(ms) => seq(|ms|, i requires 0 <= i < |ms| => ms[i].value)
    case _ => []
  }

  /** `hasOnlyValidKeys`: `every` key is one of `VALID_UTM_KEYS`. */
  function HasOnlyValidKeys(keys: seq<string>): (b: bool)
    ensures b <==> forall i :: 0 <= i < |keys| ==> keys[i] in ValidUtmKeys
  {
    keys == [] || (keys[0] in ValidUtmKeys && HasOnlyValidKeys(keys[1..]))
  }

  /** `allValuesAreStrings`: `every` value is a string. */
  function AllValuesAreStrings(values: seq<Json>): (b: bool)
    ensures b <==> forall i :: 0 <= i < |values| ==> values[i].JString?
  {
    values == [] || (values[0].JString? && AllValuesAreStrings(values[1..]))
  }

  /** `isValidUtmParams`. */
  function IsValidUtmParams(v: Json): (r: bool)
    ensures v.JNull? || v.JUndefined? ==> r
    ensures (v.JBool? || v.JNumber? || v.JString?) ==> !r
    ensures v.JObject? ==> (r <==> forall i :: 0 <= i < |v.members| ==>
                                      v.members[i].key in ValidUtmKeys && v.members[i].value.JString?)
    // An array is an object whose keys are indices, so only the empty array passes.
    ensures v.JArray? ==> (r <==> v.items == [])
  {
    if v.JNull? || v.JUndefined? then true
    else if !IsObject(v) then false
    else
      assert v.JArray? && v.items != [] ==> OwnKeys(v)[0] !in ValidUtmKeys by {
        if v.JArray? && v.items != [] {
          var k := OwnKeys(v)[0];
          assert IsDigit(k[0]);
        }
      }
      assert v.JObject? ==> forall i :: 0 <= i < |v.members| ==>
                              OwnKeys(v)[i] == v.members[i].key && OwnValues(v)[i] == v.members[i].value;
      HasOnlyValidKeys(OwnKeys(v)) && AllValuesAreStrings(OwnValues(v))
  }
}
