/**
 * `TomlTable`: a keyed table of catalog rows. Rows are added under a
 * sanitised, collision-free key; the table renders as a TOML table with its
 * rows in ascending key order. The row interface of the source (`getBaseId`,
 * `write`) is passed to the table as two functions.
 */
module Tables {
  import opened Wrappers
  import opened Text
  import opened Identifiers

  // ------------------------------------------------------- descending sort

  /** The position of the first row with the greatest key. */
  function FirstMax<T>(s: seq<T>, key: T -> string): (i: nat)
    requires s != []
    ensures i < |s|
    ensures forall j | 0 <= j < |s| :: AtMost(key(s[j]), key(s[i]))
    ensures forall j | 0 <= j < i :: Below(key(s[j]), key(s[i]))
    decreases |s|
  {
    if |s| == 1 then 0
    else
      var m := FirstMax(s[1..], key) + 1;
      if AtMost(key(s[m]), key(s[0])) then
        forall j | 0 <= j < |s| ensures AtMost(key(s[j]), key(s[0])) {
          if j > 0 {
            AtMostTransitive(key(s[j]), key(s[m]), key(s[0]));
          }
        }
        0
      else
        BelowTotal(key(s[m]), key(s[0]));
        m
  }

  /** Every element after position `i` sorts no higher than the one at `i`. */
  ghost predicate Descending<T>(r: seq<T>, key: T -> string) {
    forall i, j | 0 <= i < j < |r| :: AtMost(key(r[j]), key(r[i]))
  }

  /**
   * `sorted(comparing(key).reversed())`: the rows by descending key. Taking
   * the first greatest row each time keeps rows with equal keys in their
   * input order, as Java's stable sort does.
   */
  function SortDesc<T>(s: seq<T>, key: T -> string): (r: seq<T>)
    ensures |r| == |s| && multiset(r) == multiset(s)
    decreases |s|
  {
    if s == [] then []
    else
      var i := FirstMax(s, key);
      assert s == s[..i] + [s[i]] + s[i + 1..];
      [s[i]] + SortDesc(s[..i] + s[i + 1..], key)
  }

  /** The sorted rows descend by key. */
  lemma {:induction false} SortDescDescending<T>(s: seq<T>, key: T -> string)
    ensures Descending(SortDesc(s, key), key)
    decreases |s|
  {
    if s != [] {
      var i := FirstMax(s, key);
      var rest := s[..i] + s[i + 1..];
      assert s == s[..i] + [s[i]] + s[i + 1..];
      var tail := SortDesc(rest, key);
      SortDescDescending(rest, key);
      forall x | x in tail ensures AtMost(key(x), key(s[i])) {
        assert x in multiset(rest);
        assert x in s;
      }
    }
  }

  /** Sorting looks only at the keys of the rows being sorted. */
  lemma {:induction false} SortDescAgrees<T>(s: seq<T>, k1: T -> string, k2: T -> string)
    requires forall x | x in s :: k1(x) == k2(x)
    ensures SortDesc(s, k1) == SortDesc(s, k2)
    decreases |s|
  {
    if s != [] {
      FirstMaxAgrees(s, k1, k2);
      var i := FirstMax(s, k1);
      var rest := s[..i] + s[i + 1..];
      forall x | x in rest ensures k1(x) == k2(x) {
        assert x in multiset(rest);
        assert s == s[..i] + [s[i]] + s[i + 1..];
        assert x in s;
      }
      SortDescAgrees(rest, k1, k2);
    }
  }

  lemma {:induction false} FirstMaxAgrees<T>(s: seq<T>, k1: T -> string, k2: T -> string)
    requires s != []
    requires forall x | x in s :: k1(x) == k2(x)
    ensures FirstMax(s, k1) == FirstMax(s, k2)
    decreases |s|
  {
    if |s| > 1 {
      assert forall x | x in s[1..] :: x in s;
      FirstMaxAgrees(s[1..], k1, k2);
    }
  }

  // ------------------------------------------------------- adding rows

  /** The table after adding `batch` row by row; the i-th row draws `random(i)`. */
  function AddSeq<T>(rows: map<string, T>, batch: seq<T>, candidate: T -> string, random: nat -> Suffix): map<string, T>
    decreases |batch|
  {
    if batch == [] then rows
    else
      var n := |batch| - 1;
      var prev := AddSeq(rows, batch[..n], candidate, random);
      prev[AssignedKey(prev.Keys, candidate(batch[n]), random(n)) := batch[n]]
  }

  /** The key the i-th row of a batch is stored under. */
  function KeyAt<T>(rows: map<string, T>, batch: seq<T>, candidate: T -> string, random: nat -> Suffix, i: nat): string
    requires i < |batch|
  {
    AssignedKey(AddSeq(rows, batch[..i], candidate, random).Keys, candidate(batch[i]), random(i))
  }

  /** Keys are never removed: a key assigned early in a batch is still there later. */
  lemma {:induction false} AddSeqKeepsKeys<T>(rows: map<string, T>, batch: seq<T>, candidate: T -> string,
                                               random: nat -> Suffix, i: nat, j: nat)
    requires i < j <= |batch|
    ensures KeyAt(rows, batch, candidate, random, i) in AddSeq(rows, batch[..j], candidate, random)
    decreases j
  {
    AddSeqStep(rows, batch, candidate, random, j);
    if j > i + 1 {
      AddSeqKeepsKeys(rows, batch, candidate, random, i, j - 1);
    }
  }

  /**
   * Every key of `rows` either holds the row it held in `before` or begins
   * with the candidate of the row it holds.
   */
  ghost predicate KeyedByCandidate<T>(before: map<string, T>, rows: map<string, T>, candidate: T -> string) {
    forall k | k in rows :: (k in before && rows[k] == before[k]) || StartsWith(k, candidate(rows[k]))
  }

  /**
   * Adding a batch loses no key, and every row it stores sits under a key
   * that begins with that row's candidate.
   */
  lemma {:induction false} AddSeqKeyedByCandidate<T>(rows: map<string, T>, batch: seq<T>, candidate: T -> string,
                                                     random: nat -> Suffix)
    ensures rows.Keys <= AddSeq(rows, batch, candidate, random).Keys
    ensures KeyedByCandidate(rows, AddSeq(rows, batch, candidate, random), candidate)
    decreases |batch|
  {
    if batch != [] {
      var n := |batch| - 1;
      AddSeqKeyedByCandidate(rows, batch[..n], candidate, random);
    }
  }

  /** One more row of the batch: the table so far, with that row under its assigned key. */
  lemma AddSeqStep<T>(rows: map<string, T>, batch: seq<T>, candidate: T -> string, random: nat -> Suffix, j: nat)
    requires 0 < j <= |batch|
    ensures AddSeq(rows, batch[..j], candidate, random)
         == AddSeq(rows, batch[..j - 1], candidate, random)[KeyAt(rows, batch, candidate, random, j - 1) := batch[j - 1]]
  {
    assert batch[..j][..j - 1] == batch[..j - 1];
  }

  /** The candidate key of a row: its sanitised base id. */
  function CandidateOf<T>(baseId: T -> string): T -> string {
    x => Sanitize(baseId(x))
  }

  // ------------------------------------------------------- rendering

  predicate IsLeast(m: string, ks: set<string>) {
    m in ks && forall x | x in ks :: AtMost(m, x)
  }

  lemma {:induction false} LeastExists(ks: set<string>)
    requires ks != {}
    ensures exists m :: IsLeast(m, ks)
    decreases |ks|
  {
    var y :| y in ks;
    if ks - {y} == {} {
      assert ks == {y};
      assert IsLeast(y, ks);
    } else {
      LeastExists(ks - {y});
      var m :| IsLeast(m, ks - {y});
      if Below(y, m) {
        forall x | x in ks ensures AtMost(y, x) {
          if x != y {
            AtMostTransitive(y, m, x);
          }
        }
        assert IsLeast(y, ks);
      } else {
        if y != m {
          BelowTotal(y, m);
        }
        assert IsLeast(m, ks);
      }
    }
  }

  lemma LeastUnique(m1: string, m2: string, ks: set<string>)
    requires IsLeast(m1, ks) && IsLeast(m2, ks)
    ensures m1 == m2
  {
    if m1 != m2 {
      BelowAsymmetric(m1, m2);
    }
  }

  ghost predicate StrictlyAscending(r: seq<string>) {
    forall i, j | 0 <= i < j < |r| :: Below(r[i], r[j])
  }

  ghost function LeastOf(ks: set<string>): (m: string)
    requires ks != {}
    ensures IsLeast(m, ks)
  {
    LeastExists(ks);
    var m :| IsLeast(m, ks);
    m
  }

  /** The keys in ascending order: `sorted(Map.Entry.comparingByKey())`. */
  ghost function SortedKeys(ks: set<string>): (r: seq<string>)
    ensures |r| == |ks|
    ensures forall k :: k in r <==> k in ks
    decreases |ks|
  {
    if ks == {} then []
    else
      var m := LeastOf(ks);
      [m] + SortedKeys(ks - {m})
  }

  /** The sorted keys strictly ascend. */
  lemma {:induction false} SortedKeysAscending(ks: set<string>)
    ensures StrictlyAscending(SortedKeys(ks))
    decreases |ks|
  {
    if ks != {} {
      var m := LeastOf(ks);
      var tail := SortedKeys(ks - {m});
      SortedKeysAscending(ks - {m});
      forall x | x in tail ensures Below(m, x) {
        assert x != m && AtMost(m, x);
      }
    }
  }

  /** The first ascending key is the least one. */
  lemma SortedKeysHead(ks: set<string>, m: string)
    requires IsLeast(m, ks)
    ensures SortedKeys(ks) == [m] + SortedKeys(ks - {m})
  {
    LeastUnique(m, LeastOf(ks), ks);
  }

  /** Taking the least remaining key extends the ascending prefix by one. */
  lemma SortedKeysStep(ks: set<string>, done: seq<string>, remaining: set<string>, k: string)
    requires SortedKeys(ks) == done + SortedKeys(remaining)
    requires IsLeast(k, remaining)
    ensures SortedKeys(ks) == (done + [k]) + SortedKeys(remaining - {k})
  {
    SortedKeysHead(remaining, k);
    assert done + ([k] + SortedKeys(remaining - {k})) == (done + [k]) + SortedKeys(remaining - {k});
  }

  /** A row line of the table: `key = value`. */
  function EntryLine(key: string, value: string): string {
    key + " = " + value
  }

  /** One row line per key, in the order of `keys`. */
  function EntryLines<T>(keys: seq<string>, rows: map<string, T>, render: T -> string): (r: seq<string>)
    requires forall k | k in keys :: k in rows
    ensures |r| == |keys|
    decreases |keys|
  {
    if keys == [] then []
    else
      var n := |keys| - 1;
      assert forall k | k in keys[..n] :: k in keys;
      EntryLines(keys[..n], rows, render) + [EntryLine(keys[n], render(rows[keys[n]]))]
  }

  lemma {:induction false} EntryLinesAt<T>(keys: seq<string>, rows: map<string, T>, render: T -> string, i: nat)
    requires forall k | k in keys :: k in rows
    requires i < |keys|
    ensures EntryLines(keys, rows, render)[i] == EntryLine(keys[i], render(rows[keys[i]]))
    decreases |keys|
  {
    var n := |keys| - 1;
    if i < n {
      assert forall k | k in keys[..n] :: k in keys;
      EntryLinesAt(keys[..n], rows, render, i);
    }
  }

  lemma EntryLinesSnoc<T>(keys: seq<string>, k: string, rows: map<string, T>, render: T -> string)
    requires forall x | x in keys :: x in rows
    requires k in rows
    ensures EntryLines(keys + [k], rows, render) == EntryLines(keys, rows, render) + [EntryLine(k, render(rows[k]))]
  {
    assert (keys + [k])[..|keys|] == keys;
  }

  /**
   * What `write` emits: the header `[name]`, the rows in ascending key order
   * and a blank line. It is a function of the name and the key-to-row mapping
   * alone, whatever order the rows were added in.
   */
  ghost function TableLines<T>(name: string, rows: map<string, T>, render: T -> string): seq<string> {
    ["[" + name + "]"] + EntryLines(SortedKeys(rows.Keys), rows, render) + [""]
  }

  /** Splits `key = value` at the first space. */
  function ParseLine(line: string): Option<(string, string)> {
    var i := IndexOf(line, ' ');
    if StartsWith(line[i..], " = ") then Some((line[..i], line[i + 3..])) else None
  }

  /**
   * The rendered table reads back as the table: every row line splits into a
   * key of the table and its rendered row, every key has such a line, and the
   * keys ascend.
   */
  lemma TableLinesReadBack<T>(name: string, rows: map<string, T>, render: T -> string)
    requires forall k | k in rows :: ' ' !in k
    ensures |TableLines(name, rows, render)| == |rows| + 2
    ensures TableLines(name, rows, render)[0] == "[" + name + "]"
    ensures TableLines(name, rows, render)[|rows| + 1] == ""
    ensures forall i | 1 <= i <= |rows| :: exists k | k in rows ::
      ParseLine(TableLines(name, rows, render)[i]) == Some((k, render(rows[k])))
    ensures forall k | k in rows :: exists i | 1 <= i <= |rows| ::
      ParseLine(TableLines(name, rows, render)[i]) == Some((k, render(rows[k])))
  {
    var keys := SortedKeys(rows.Keys);
    var lines := TableLines(name, rows, render);
    assert |keys| == |rows|;
    forall i | 1 <= i <= |rows|
      ensures keys[i - 1] in rows && ParseLine(lines[i]) == Some((keys[i - 1], render(rows[keys[i - 1]])))
    {
      TableLineAt(name, rows, render, i - 1);
      ParseLineInverse(keys[i - 1], render(rows[keys[i - 1]]));
    }
    forall k | k in rows
      ensures exists i | 1 <= i <= |rows| :: ParseLine(lines[i]) == Some((k, render(rows[k])))
    {
      assert k in keys;
      var i :| 0 <= i < |keys| && keys[i] == k;
      assert ParseLine(lines[i + 1]) == Some((k, render(rows[k])));
    }
  }

  /** The row line after the header at position `i` is the i-th key in ascending order. */
  lemma TableLineAt<T>(name: string, rows: map<string, T>, render: T -> string, i: nat)
    requires i < |rows|
    ensures |TableLines(name, rows, render)| == |rows| + 2
    ensures var keys := SortedKeys(rows.Keys);
      keys[i] in rows && TableLines(name, rows, render)[i + 1] == EntryLine(keys[i], render(rows[keys[i]]))
  {
    var keys := SortedKeys(rows.Keys);
    EntryLinesAt(keys, rows, render, i);
  }

  lemma ParseLineInverse(key: string, value: string)
    requires ' ' !in key
    ensures ParseLine(EntryLine(key, value)) == Some((key, value))
  {
    var line := EntryLine(key, value);
    assert line[|key|] == ' ';
    assert IndexOf(line, ' ') == |key|;
    assert line[|key|..] == " = " + value;
    assert line[..|key|] == key;
    assert line[|key| + 3..] == value;
  }

  // ------------------------------------------------------- the table

  class TomlTable<T> {
    const tableName: string
    const baseId: T -> string
    /** The candidate key of a row: its base id after sanitising. */
    const candidate: T -> string
    const render: T -> string
    var rows: map<string, T>

    constructor (tableName: string, baseId: T -> string, render: T -> string)
      ensures this.tableName == tableName && this.baseId == baseId && this.render == render
      ensures candidate == CandidateOf(baseId)
      ensures rows == map[]
    {
      this.tableName := tableName;
      this.baseId := baseId;
      this.candidate := CandidateOf(baseId);
      this.render := render;
      rows := map[];
    }

    /**
     * Stores the row under its assigned key (`suffix` is the random draw,
     * used only on a collision) and returns this table. Exactly that one
     * mapping is put; an existing row under the same key is replaced.
     */
    method Add(row: T, suffix: Suffix) returns (self: TomlTable<T>)
      modifies this
      ensures self == this
      ensures rows == old(rows)[AssignedKey(old(rows).Keys, candidate(row), suffix) := row]
    {
      var key := AssignedKey(rows.Keys, candidate(row), suffix);
      rows := rows[key := row];
      self := this;
    }

    /** Adds the rows in descending order of base id; the i-th added draws `random(i)`. */
    method AddAll(batch: seq<T>, random: nat -> Suffix)
      modifies this
      ensures rows == AddSeq(old(rows), SortDesc(batch, baseId), candidate, random)
    {
      AddEach(SortDesc(batch, baseId), random);
    }

    /**
     * Adds the rows in descending order of their sanitised candidate keys,
     * so that a candidate is always added after every candidate extending it
     * by a dash.
     */
    method AddAllByKey(batch: seq<T>, random: nat -> Suffix)
      modifies this
      ensures rows == AddSeq(old(rows), SortDesc(batch, candidate), candidate, random)
    {
      AddEach(SortDesc(batch, candidate), random);
    }

    /** `forEach(this::add)`: the rows added in the order given. */
    method AddEach(ordered: seq<T>, random: nat -> Suffix)
      modifies this
      ensures rows == AddSeq(old(rows), ordered, candidate, random)
    {
      for i := 0 to |ordered|
        invariant rows == AddSeq(old(rows), ordered[..i], candidate, random)
      {
        AddSeqStep(old(rows), ordered, candidate, random, i + 1);
        var _ := Add(ordered[i], random(i));
      }
      assert ordered[..|ordered|] == ordered;
    }

    /** The table as lines of text: header, rows by ascending key, blank line. */
    method Write() returns (lines: seq<string>)
      ensures lines == TableLines(tableName, rows, render)
    {
      var body: seq<string> := [];
      var remaining := rows.Keys;
      ghost var done: seq<string> := [];
      while remaining != {}
        invariant remaining <= rows.Keys
        invariant SortedKeys(rows.Keys) == done + SortedKeys(remaining)
        invariant forall k | k in done :: k in rows
        invariant body == EntryLines(done, rows, render)
        decreases |remaining|
      {
        var k := Least(remaining);
        SortedKeysStep(rows.Keys, done, remaining, k);
        EntryLinesSnoc(done, k, rows, render);
        body := body + [EntryLine(k, render(rows[k]))];
        done := done + [k];
        remaining := remaining - {k};
      }
      assert done == SortedKeys(rows.Keys);
      lines := ["[" + tableName + "]"] + body + [""];
    }

    /** `iterator()`: every key with its row exactly once, in no particular order. */
    method Entries() returns (es: seq<(string, T)>)
      ensures |es| == |rows|
      ensures forall i | 0 <= i < |es| :: es[i].0 in rows && rows[es[i].0] == es[i].1
      ensures forall i, j | 0 <= i < j < |es| :: es[i].0 != es[j].0
      ensures forall k | k in rows :: exists i | 0 <= i < |es| :: es[i].0 == k
    {
      es := [];
      var remaining := rows.Keys;
      while remaining != {}
        invariant remaining <= rows.Keys
        invariant |es| + |remaining| == |rows|
        invariant forall i | 0 <= i < |es| :: es[i].0 in rows - remaining && rows[es[i].0] == es[i].1
        invariant forall i, j | 0 <= i < j < |es| :: es[i].0 != es[j].0
        invariant forall k | k in rows && k !in remaining :: exists i | 0 <= i < |es| :: es[i].0 == k
        decreases |remaining|
      {
        var k :| k in remaining;
        ghost var prev := es;
        es := es + [(k, rows[k])];
        forall x | x in rows && x !in remaining - {k}
          ensures exists i | 0 <= i < |es| :: es[i].0 == x
        {
          if x == k {
            assert es[|prev|].0 == x;
          } else {
            var i :| 0 <= i < |prev| && prev[i].0 == x;
            assert es[i].0 == x;
          }
        }
        remaining := remaining - {k};
      }
    }
  }

  /** The least of a non-empty set of keys. */
  method Least(ks: set<string>) returns (m: string)
    requires ks != {}
    ensures IsLeast(m, ks)
  {
    m :| m in ks;
    var rest := ks - {m};
    while rest != {}
      invariant rest <= ks && m in ks
      invariant forall x | x in ks - rest :: AtMost(m, x)
      decreases |rest|
    {
      var x :| x in rest;
      if Below(x, m) {
        forall y | y in ks - rest ensures AtMost(x, y) {
          AtMostTransitive(x, m, y);
        }
        m := x;
      } else if x != m {
        BelowTotal(x, m);
      }
      rest := rest - {x};
    }
  }

  // ------------------------------------------------------- key assignment across a batch

  /**
   * Adding in descending candidate order gives every candidate that another
   * candidate of the batch extends by a dash (`a-b` beside `a-b-c`) a
   * suffixed key, so no key is both a row and the prefix of a deeper row.
   */
  lemma CandidateOrderSuffixesPrefixes<T>(rows: map<string, T>, batch: seq<T>, candidate: T -> string,
                                          random: nat -> Suffix, i: nat, j: nat)
    requires var ordered := SortDesc(batch, candidate);
      i < |ordered| && j < |ordered| &&
      StartsWith(candidate(ordered[j]), candidate(ordered[i]) + "-")
    ensures var ordered := SortDesc(batch, candidate);
      KeyAt(rows, ordered, candidate, random, i) != candidate(ordered[i])
  {
    var ordered := SortDesc(batch, candidate);
    var ci, cj := candidate(ordered[i]), candidate(ordered[j]);
    assert StartsWith(cj, ci) && ci != cj by {
      StartsWithTransitive(cj, ci + "-", ci);
    }
    PrefixBelow(ci, cj);
    SortDescDescending(batch, candidate);
    if i <= j {
      if i < j {
        assert AtMost(cj, ci);
      }
      BelowAsymmetric(ci, cj);
      assert false;
    }
    var keys := AddSeq(rows, ordered[..i], candidate, random).Keys;
    var kj := KeyAt(rows, ordered, candidate, random, j);
    AddSeqKeepsKeys(rows, ordered, candidate, random, j, i);
    StartsWithTransitive(kj, cj, ci + "-");
    assert Collides(keys, ci);
  }

  /** Where every base id is already well formed, both orders are the same. */
  lemma BaseIdOrderIsCandidateOrder<T>(batch: seq<T>, baseId: T -> string)
    requires forall x | x in batch :: WellFormedId(baseId(x))
    ensures SortDesc(batch, baseId) == SortDesc(batch, CandidateOf(baseId))
  {
    forall x | x in batch ensures baseId(x) == CandidateOf(baseId)(x) {
      SanitizeKeepsWellFormed(baseId(x));
    }
    SortDescAgrees(batch, baseId, CandidateOf(baseId));
  }

  // ------------------------------------------------------- worked cases

  /** The first row added to an empty table keeps its candidate key. */
  lemma AddSeqSingle<T>(row: T, candidate: T -> string, random: nat -> Suffix)
    ensures AddSeq(map[], [row], candidate, random) == map[candidate(row) := row]
  {
    assert [row][..0] == [];
    assert !Collides({}, candidate(row));
  }

  /** A single row with a well-formed base id, added to an empty table, is stored under that id. */
  lemma SingleRowKeepsItsName<T>(row: T, baseId: T -> string, random: nat -> Suffix)
    requires WellFormedId(baseId(row))
    ensures AddSeq(map[], SortDesc([row], CandidateOf(baseId)), CandidateOf(baseId), random) == map[baseId(row) := row]
  {
    SortDescSingle(row, CandidateOf(baseId));
    CandidateOfWellFormed(baseId, row);
    AddSeqSingle(row, CandidateOf(baseId), random);
  }

  lemma SortDescSingle<T>(row: T, key: T -> string)
    ensures SortDesc([row], key) == [row]
  {
    assert FirstMax([row], key) == 0;
    assert [row][..0] + [row][1..] == [];
  }

  /**
   * `junit` and `junit-bom` in one batch: `junit-bom` is added first and
   * keeps its name, and `junit` then collides with it and is suffixed with
   * the second draw.
   */
  lemma JunitBomKeepsItsName<T>(junit: T, bom: T, baseId: T -> string, random: nat -> Suffix)
    requires baseId(junit) == "junit" && baseId(bom) == "junit-bom"
    ensures AddSeq(map[], SortDesc([junit, bom], baseId), CandidateOf(baseId), random)
         == map["junit-bom" := bom, "junit" + Hex4(random(1)) := junit]
  {
    JunitOrder(junit, bom, baseId);
    JunitCandidates(junit, bom, baseId);
    AddSeqPair(bom, junit, CandidateOf(baseId), random);
    JunitCollides(random(1));
  }

  /** Two rows added to an empty table: the first keeps its candidate, the second is checked against it. */
  lemma AddSeqPair<T>(a: T, b: T, candidate: T -> string, random: nat -> Suffix)
    ensures AddSeq(map[], [a, b], candidate, random)
         == map[candidate(a) := a][AssignedKey({candidate(a)}, candidate(b), random(1)) := b]
  {
    assert [a, b][..1] == [a];
    AddSeqSingle(a, candidate, random);
  }

  lemma JunitOrder<T>(junit: T, bom: T, baseId: T -> string)
    requires baseId(junit) == "junit" && baseId(bom) == "junit-bom"
    ensures SortDesc([junit, bom], baseId) == [bom, junit]
  {
    PrefixBelow("junit", "junit-bom");
    BelowAsymmetric("junit", "junit-bom");
    assert FirstMax([junit, bom], baseId) == 1;
    assert [junit, bom][..1] + [junit, bom][2..] == [junit];
  }

  /** A well-formed base id is its own candidate key. */
  lemma CandidateOfWellFormed<T>(baseId: T -> string, x: T)
    requires WellFormedId(baseId(x))
    ensures CandidateOf(baseId)(x) == baseId(x)
  {
    SanitizeKeepsWellFormed(baseId(x));
  }

  lemma JunitCandidates<T>(junit: T, bom: T, baseId: T -> string)
    requires baseId(junit) == "junit" && baseId(bom) == "junit-bom"
    ensures CandidateOf(baseId)(junit) == "junit" && CandidateOf(baseId)(bom) == "junit-bom"
  {
    assert WellFormedId(baseId(bom)) by {
      var k := "junit-bom";
      assert forall i | 0 <= i < |k| :: IsKeyChar(k[i]);
    }
    assert WellFormedId(baseId(junit)) by {
      var k := "junit";
      assert forall i | 0 <= i < |k| :: IsKeyChar(k[i]);
    }
    CandidateOfWellFormed(baseId, bom);
    CandidateOfWellFormed(baseId, junit);
  }

  lemma JunitCollides(suffix: Suffix)
    ensures AssignedKey({"junit-bom"}, "junit", suffix) == "junit" + Hex4(suffix)
    ensures "junit" + Hex4(suffix) != "junit-bom"
  {
    assert StartsWith("junit-bom", "junit" + "-");
    assert Collides({"junit-bom"}, "junit");
    var suffixed := "junit" + Hex4(suffix);
    assert suffixed[5] != '-';
  }

  /**
   * The order `addAll` uses as written: by raw base id. `a.b` sorts above
   * `a-b-c` (`.` is above `-`) and is added first, so its candidate `a-b`
   * is stored bare, beside `a-b-c`.
   */
  lemma BaseIdOrderLeavesPrefixBare<T>(dotted: T, dashed: T, baseId: T -> string, random: nat -> Suffix)
    requires baseId(dotted) == "a.b" && baseId(dashed) == "a-b-c"
    ensures var ordered := SortDesc([dotted, dashed], baseId);
      && StartsWith(CandidateOf(baseId)(ordered[1]), CandidateOf(baseId)(ordered[0]) + "-")
      && KeyAt(map[], ordered, CandidateOf(baseId), random, 0) == CandidateOf(baseId)(ordered[0])
  {
    DottedOrder(dotted, dashed, baseId);
    DottedCandidates(dotted, dashed, baseId);
    KeyAtFirst([dotted, dashed], CandidateOf(baseId), random);
  }

  /** The first row of a batch added to an empty table keeps its candidate key. */
  lemma KeyAtFirst<T>(batch: seq<T>, candidate: T -> string, random: nat -> Suffix)
    requires batch != []
    ensures KeyAt(map[], batch, candidate, random, 0) == candidate(batch[0])
  {
    assert batch[..0] == [];
    assert !Collides({}, candidate(batch[0]));
  }

  lemma DottedOrder<T>(dotted: T, dashed: T, baseId: T -> string)
    requires baseId(dotted) == "a.b" && baseId(dashed) == "a-b-c"
    ensures SortDesc([dotted, dashed], baseId) == [dotted, dashed]
  {
    assert Below("a-b-c", "a.b");
    assert FirstMax([dotted, dashed], baseId) == 0;
    assert [dotted, dashed][..0] + [dotted, dashed][1..] == [dashed];
  }

  lemma DottedCandidates<T>(dotted: T, dashed: T, baseId: T -> string)
    requires baseId(dotted) == "a.b" && baseId(dashed) == "a-b-c"
    ensures CandidateOf(baseId)(dotted) == "a-b" && CandidateOf(baseId)(dashed) == "a-b-c"
    ensures StartsWith(CandidateOf(baseId)(dashed), CandidateOf(baseId)(dotted) + "-")
  {
    SanitizeDotted(baseId(dotted));
    DashedParts(baseId(dashed), "a-b");
    CandidateOfWellFormed(baseId, dashed);
  }

  /** `a-b-c` is already a well-formed key, and it extends `a-b` by a dash. */
  lemma DashedParts(k: string, p: string)
    requires k == "a-b-c" && p == "a-b"
    ensures WellFormedId(k) && StartsWith(k, p + "-")
  {
    assert forall i | 0 <= i < |k| :: IsKeyChar(k[i]);
    assert k == p + "-" + "c";
  }
}
