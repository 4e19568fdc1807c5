/**
 * Column sorting of the generic table (src/ui/Table/hooks/useSort.ts): the
 * comparator of `sortedData` and the `requestSort` direction toggle.
 * `String.prototype.localeCompare` is a parameter. `Array.prototype.sort`
 * is stable; it is modelled by a stable insertion sort that moves an
 * element in front of another only when the comparator is negative.
 */
module TableSort {
  import opened Wrappers

  /** A cell value: `null`/`undefined`, a string, a number, or anything else (booleans, dates, objects). */
  datatype Value = Missing | Str(s: string) | Num(x: real) | Other

  /** A row read by key, `(row as any)[key]`; an absent key reads as `undefined`. */
  type Row = map<string, Value>

  datatype Direction = Asc | Desc

  datatype SortConfig = SortConfig(key: string, direction: Direction)

  function KeyValue(row: Row, key: string): Value {
    if key in row then row[key] else Missing
  }

  /** The comparator of `sortedData` as written: a missing left value always compares greater. */
  function CompareAsWritten(a: Value, b: Value, dir: Direction, localeCompare: (string, string) -> int): (c: real)
    ensures a.Missing? ==> c > 0.0
    ensures !a.Missing? && b.Missing? ==> c < 0.0
    ensures a.Num? && b.Num? ==> (c < 0.0 <==> if dir == Asc then a.x < b.x else b.x < a.x)
    ensures a.Str? && b.Str? ==> (c < 0.0 <==> if dir == Asc then localeCompare(a.s, b.s) < 0 else localeCompare(b.s, a.s) < 0)
    ensures !a.Missing? && !b.Missing? && !(a.Str? && b.Str?) && !(a.Num? && b.Num?) ==> c == 0.0
  {
    if a.Missing? then 1.0
    else if b.Missing? then -1.0
    else if a.Str? && b.Str? then
      (if dir == Asc then localeCompare(a.s, b.s) else localeCompare(b.s, a.s)) as real
    else if a.Num? && b.Num? then
      if dir == Asc then a.x - b.x else b.x - a.x
    else 0.0
  }

  /**
   * The comparator with two missing values comparing equal. Everywhere else
   * it returns what the source returns.
   */
  function Compare(a: Value, b: Value, dir: Direction, localeCompare: (string, string) -> int): (c: real)
    ensures !(a.Missing? && b.Missing?) ==> c == CompareAsWritten(a, b, dir, localeCompare)
    ensures a.Missing? && b.Missing? ==> c == 0.0
  {
    if a.Missing? && b.Missing? then 0.0 else CompareAsWritten(a, b, dir, localeCompare)
  }

  /** `localeCompare` answers `a` before `b` exactly when it answers `b` after `a`, and equal symmetrically. */
  ghost predicate LocaleAntisymmetric(localeCompare: (string, string) -> int) {
    forall a, b :: (localeCompare(a, b) < 0 <==> localeCompare(b, a) > 0)
                   && (localeCompare(a, b) == 0 <==> localeCompare(b, a) == 0)
  }

  /** `localeCompare`'s "before" is transitive. */
  ghost predicate LocaleTransitive(localeCompare: (string, string) -> int) {
    forall a, b, c :: localeCompare(a, b) < 0 && localeCompare(b, c) < 0 ==> localeCompare(a, c) < 0
  }

  /** What `Array.prototype.sort` needs of `localeCompare` for a defined order. */
  ghost predicate LocaleConsistent(localeCompare: (string, string) -> int) {
    LocaleAntisymmetric(localeCompare) && LocaleTransitive(localeCompare)
  }

  /**
   * As written, two rows whose key is missing each compare greater than the
   * other, which no consistent comparator (ECMA-262, `Array.prototype.sort`)
   * may do; the sort order of such rows is then left to the engine.
   */
  lemma CompareAsWrittenInconsistent(dir: Direction, localeCompare: (string, string) -> int)
    ensures !(CompareAsWritten(Missing, Missing, dir, localeCompare) < 0.0 <==> CompareAsWritten(Missing, Missing, dir, localeCompare) > 0.0)
  {
  }

  /**
   * The correction changes no answer to "does `a` sort before `b`": a missing
   * left value is never negative under either comparator, so the sort moves
   * rows exactly as the comparator as written would.
   */
  lemma CompareBeforeAsWritten(a: Value, b: Value, dir: Direction, localeCompare: (string, string) -> int)
    ensures Compare(a, b, dir, localeCompare) < 0.0 <==> CompareAsWritten(a, b, dir, localeCompare) < 0.0
  {
  }

  /**
   * On a column that mixes numbers and strings the comparator's "equal" is
   * not transitive: 1 ties with "x" and "x" ties with 2, yet 1 sorts before 2.
   */
  lemma MixedKindsTieNotTransitive(localeCompare: (string, string) -> int)
    ensures Compare(Num(1.0), Str("x"), Asc, localeCompare) == 0.0
    ensures Compare(Str("x"), Num(2.0), Asc, localeCompare) == 0.0
    ensures Compare(Num(1.0), Num(2.0), Asc, localeCompare) < 0.0
  {
  }

  /** On a column of numbers and missing values, ties are transitive. */
  lemma NumericTiesTransitive(a: Value, b: Value, c: Value, dir: Direction, localeCompare: (string, string) -> int)
    requires (a.Num? || a.Missing?) && (b.Num? || b.Missing?) && (c.Num? || c.Missing?)
    requires Compare(a, b, dir, localeCompare) == 0.0 && Compare(b, c, dir, localeCompare) == 0.0
    ensures Compare(a, c, dir, localeCompare) == 0.0
  {
  }

  /** The corrected comparator is antisymmetric for every pair of values. */
  lemma CompareConsistent(a: Value, b: Value, dir: Direction, localeCompare: (string, string) -> int)
    requires LocaleAntisymmetric(localeCompare)
    ensures Compare(a, b, dir, localeCompare) < 0.0 <==> Compare(b, a, dir, localeCompare) > 0.0
    ensures Compare(a, b, dir, localeCompare) == 0.0 <==> Compare(b, a, dir, localeCompare) == 0.0
  {
    if a.Str? && b.Str? {
      assert localeCompare(a.s, b.s) < 0 <==> localeCompare(b.s, a.s) > 0;
      assert localeCompare(a.s, b.s) == 0 <==> localeCompare(b.s, a.s) == 0;
    }
  }

  /** "`a` sorts strictly before `b`". */
  predicate Precedes(a: Row, b: Row, cfg: SortConfig, localeCompare: (string, string) -> int) {
    Compare(KeyValue(a, cfg.key), KeyValue(b, cfg.key), cfg.direction, localeCompare) < 0.0
  }

  /** With a transitive `localeCompare`, "sorts strictly before" is transitive on all rows. */
  lemma PrecedesTransitive(a: Row, b: Row, c: Row, cfg: SortConfig, localeCompare: (string, string) -> int)
    requires LocaleTransitive(localeCompare)
    requires Precedes(a, b, cfg, localeCompare) && Precedes(b, c, cfg, localeCompare)
    ensures Precedes(a, c, cfg, localeCompare)
  {
    var va, vb, vc := KeyValue(a, cfg.key), KeyValue(b, cfg.key), KeyValue(c, cfg.key);
    if va.Str? && vb.Str? && vc.Str? {
      if cfg.direction == Asc {
        assert localeCompare(va.s, vb.s) < 0 && localeCompare(vb.s, vc.s) < 0;
      } else {
        assert localeCompare(vc.s, vb.s) < 0 && localeCompare(vb.s, va.s) < 0;
      }
    }
  }

  /** No row sorts strictly before itself. */
  lemma PrecedesIrreflexive(a: Row, cfg: SortConfig, localeCompare: (string, string) -> int)
    requires LocaleAntisymmetric(localeCompare)
    ensures !Precedes(a, a, cfg, localeCompare)
  {
    var v := KeyValue(a, cfg.key);
    if v.Str? {
      assert localeCompare(v.s, v.s) < 0 <==> localeCompare(v.s, v.s) > 0;
    }
  }

  /** No row precedes an earlier one. */
  predicate Sorted(s: seq<Row>, cfg: SortConfig, localeCompare: (string, string) -> int) {
    forall i, j :: 0 <= i < j < |s| ==> !Precedes(s[j], s[i], cfg, localeCompare)
  }

  /** Insert `x` after every row it does not precede. */
  function Insert(x: Row, s: seq<Row>, cfg: SortConfig, localeCompare: (string, string) -> int): (r: seq<Row>)
    ensures multiset(r) == multiset(s) + multiset{x}
    ensures |r| == |s| + 1
  {
    if |s| == 0 then [x]
    else if Precedes(x, s[0], cfg, localeCompare) then [x] + s
    else
      var rest := Insert(x, s[1..], cfg, localeCompare);
      MultisetCons(s);
      [s[0]] + rest
  }

  lemma MultisetCons(s: seq<Row>)
    requires |s| > 0
    ensures multiset(s) == multiset{s[0]} + multiset(s[1..])
  {
    assert s == [s[0]] + s[1..];
  }

  /** If neither `x` nor any row of `s` precedes `h`, no row of the insertion does. */
  lemma InsertNotBefore(x: Row, s: seq<Row>, h: Row, cfg: SortConfig, localeCompare: (string, string) -> int)
    requires !Precedes(x, h, cfg, localeCompare)
    requires forall j :: 0 <= j < |s| ==> !Precedes(s[j], h, cfg, localeCompare)
    ensures forall j :: 0 <= j < |Insert(x, s, cfg, localeCompare)| ==>
      !Precedes(Insert(x, s, cfg, localeCompare)[j], h, cfg, localeCompare)
  {
    var r := Insert(x, s, cfg, localeCompare);
    forall j | 0 <= j < |r| ensures !Precedes(r[j], h, cfg, localeCompare) {
      assert r[j] in multiset(r);
      if r[j] != x {
        assert r[j] in multiset(s);
      }
    }
  }

  /** A row that no later row precedes, in front of a sorted sequence, keeps it sorted. */
  lemma SortedCons(h: Row, t: seq<Row>, cfg: SortConfig, localeCompare: (string, string) -> int)
    requires Sorted(t, cfg, localeCompare)
    requires forall j :: 0 <= j < |t| ==> !Precedes(t[j], h, cfg, localeCompare)
    ensures Sorted([h] + t, cfg, localeCompare)
  {
    var r := [h] + t;
    forall i, j | 0 <= i < j < |r| ensures !Precedes(r[j], r[i], cfg, localeCompare) {
      assert r[j] == t[j - 1];
      if i > 0 {
        assert r[i] == t[i - 1];
      }
    }
  }

  lemma {:induction false} InsertSorted(x: Row, s: seq<Row>, cfg: SortConfig, localeCompare: (string, string) -> int)
    requires LocaleConsistent(localeCompare)
    requires Sorted(s, cfg, localeCompare)
    ensures Sorted(Insert(x, s, cfg, localeCompare), cfg, localeCompare)
  {
    if |s| > 0 {
      if Precedes(x, s[0], cfg, localeCompare) {
        forall j | 0 <= j < |s| ensures !Precedes(s[j], x, cfg, localeCompare) {
          PrecedesIrreflexive(s[0], cfg, localeCompare);
          if Precedes(s[j], x, cfg, localeCompare) {
            PrecedesTransitive(s[j], x, s[0], cfg, localeCompare);
          }
        }
        SortedCons(x, s, cfg, localeCompare);
      } else {
        var tail := s[1..];
        assert Sorted(tail, cfg, localeCompare) by {
          forall i, j | 0 <= i < j < |tail| ensures !Precedes(tail[j], tail[i], cfg, localeCompare) {
            assert tail[j] == s[j + 1] && tail[i] == s[i + 1];
          }
        }
        InsertSorted(x, tail, cfg, localeCompare);
        var rest := Insert(x, tail, cfg, localeCompare);
        assert forall j :: 0 <= j < |tail| ==> tail[j] == s[j + 1];
        InsertNotBefore(x, tail, s[0], cfg, localeCompare);
        SortedCons(s[0], rest, cfg, localeCompare);
      }
    }
  }

  /** The rows in sorted order; later rows are inserted after the earlier ones they do not precede. */
  function SortRows(s: seq<Row>, cfg: SortConfig, localeCompare: (string, string) -> int): (r: seq<Row>)
    ensures multiset(r) == multiset(s)
    ensures |r| == |s|
  {
    if |s| == 0 then []
    else
      assert s == s[..|s| - 1] + [s[|s| - 1]];
      Insert(s[|s| - 1], SortRows(s[..|s| - 1], cfg, localeCompare), cfg, localeCompare)
  }

  lemma {:induction false} SortRowsSorted(s: seq<Row>, cfg: SortConfig, localeCompare: (string, string) -> int)
    requires LocaleConsistent(localeCompare)
    ensures Sorted(SortRows(s, cfg, localeCompare), cfg, localeCompare)
  {
    if |s| > 0 {
      SortRowsSorted(s[..|s| - 1], cfg, localeCompare);
      InsertSorted(s[|s| - 1], SortRows(s[..|s| - 1], cfg, localeCompare), cfg, localeCompare);
    }
  }

  /**
   * `sortedData`: `[]` for undefined data, the data itself without a sort
   * configuration, otherwise a sorted copy.
   */
  function SortedData(data: Option<seq<Row>>, config: Option<SortConfig>, localeCompare: (string, string) -> int): (r: seq<Row>)
    ensures data.None? ==> r == []
    ensures data.Some? && config.None? ==> r == data.value
    ensures data.Some? ==> multiset(r) == multiset(data.value)
  {
    if data.None? then []
    else if config.None? then data.value
    else SortRows(data.value, config.value, localeCompare)
  }

  /** Sorted output puts every row with a missing key after all rows with a value. */
  lemma MissingSortLast(s: seq<Row>, cfg: SortConfig, localeCompare: (string, string) -> int, i: int, j: int)
    requires Sorted(s, cfg, localeCompare)
    requires 0 <= i < j < |s| && KeyValue(s[i], cfg.key).Missing?
    ensures KeyValue(s[j], cfg.key).Missing?
  {
    assert !Precedes(s[j], s[i], cfg, localeCompare);
  }

  /** When every key is a number, ascending order is non-decreasing and descending order non-increasing. */
  lemma NumbersInOrder(s: seq<Row>, cfg: SortConfig, localeCompare: (string, string) -> int, i: int, j: int)
    requires Sorted(s, cfg, localeCompare)
    requires 0 <= i < j < |s| && KeyValue(s[i], cfg.key).Num? && KeyValue(s[j], cfg.key).Num?
    ensures cfg.direction == Asc ==> KeyValue(s[i], cfg.key).x <= KeyValue(s[j], cfg.key).x
    ensures cfg.direction == Desc ==> KeyValue(s[i], cfg.key).x >= KeyValue(s[j], cfg.key).x
  {
    assert !Precedes(s[j], s[i], cfg, localeCompare);
  }

  /** The sorted data of a configured table is ordered. */
  lemma SortedDataSorted(data: seq<Row>, cfg: SortConfig, localeCompare: (string, string) -> int)
    requires LocaleConsistent(localeCompare)
    ensures Sorted(SortedData(Some(data), Some(cfg), localeCompare), cfg, localeCompare)
  {
    SortRowsSorted(data, cfg, localeCompare);
  }

  // ---------------------------------------------------------------------------
  // The direction toggle
  // ---------------------------------------------------------------------------

  function Flip(d: Direction): Direction {
    if d == Asc then Desc else Asc
  }

  /** `requestSort(key)`: a new key sorts ascending; the current key flips its direction. */
  function RequestSort(config: Option<SortConfig>, key: string): (r: SortConfig)
    ensures r.key == key
    ensures config.None? || config.value.key != key ==> r.direction == Asc
    ensures config.Some? && config.value.key == key ==> r.direction != config.value.direction
  {
    if config.Some? && config.value.key == key then SortConfig(key, Flip(config.value.direction))
    else SortConfig(key, Asc)
  }

  /** Requesting the current key twice restores the configuration; a new key goes ascending, then descending. */
  lemma RequestSortTwice(config: Option<SortConfig>, key: string)
    ensures config.Some? && config.value.key == key ==> RequestSort(Some(RequestSort(config, key)), key) == config.value
    ensures config.None? || config.value.key != key ==> RequestSort(Some(RequestSort(config, key)), key) == SortConfig(key, Desc)
  {
  }
}
