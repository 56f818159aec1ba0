/** The dynamic table of HPACK (section 4 of RFC 7541), as kept by `H2HeaderDecoder` in src/core/control/base/H2.cpp. */
module HpackTable {
  import opened Bytes

  const ENTRY_OVERHEAD := 32
  const DEFAULT_LIMIT := 4096

  type Text = seq<byte>

  datatype Field = Field(name: Text, value: Text)

  function Size(f: Field): nat {
    |f.name| + |f.value| + ENTRY_OVERHEAD
  }

  function Total(table: seq<Field>): nat {
    if table == [] then 0 else Size(table[0]) + Total(table[1..])
  }

  /** The longest newest-first prefix that fits the limit. */
  function Fit(table: seq<Field>, limit: nat): seq<Field> {
    if table == [] || Size(table[0]) > limit then []
    else [table[0]] + Fit(table[1..], limit - Size(table[0]))
  }

  lemma {:induction false} FitIsLongest(table: seq<Field>, limit: nat)
    ensures Fit(table, limit) <= table && Total(Fit(table, limit)) <= limit
    ensures forall n :: |Fit(table, limit)| < n <= |table| ==> Total(table[..n]) > limit
  {
    if table != [] && Size(table[0]) <= limit {
      FitIsLongest(table[1..], limit - Size(table[0]));
      assert table == [table[0]] + table[1..];
      forall n | |Fit(table, limit)| < n <= |table|
        ensures Total(table[..n]) > limit
      {
        assert table[..n][1..] == table[1..][..n - 1];
      }
    } else {
      forall n | 0 < n <= |table|
        ensures Total(table[..n]) > limit
      {
        assert table[..n][0] == table[0];
      }
    }
  }

  lemma {:induction false} FitWhole(table: seq<Field>, limit: nat)
    requires Total(table) <= limit
    ensures Fit(table, limit) == table
  {
    if table != [] {
      FitWhole(table[1..], limit - Size(table[0]));
    }
  }

  /** Dropping the oldest entry of a table that does not fit loses nothing that would have been kept. */
  lemma {:induction false} FitDropsOldest(table: seq<Field>, limit: nat)
    requires Total(table) > limit
    ensures table != [] && Fit(table, limit) == Fit(table[..|table| - 1], limit)
  {
    if |table| == 1 {
    } else if Size(table[0]) <= limit {
      FitDropsOldest(table[1..], limit - Size(table[0]));
      assert table[..|table| - 1][1..] == table[1..][..|table| - 2];
    }
  }

  lemma {:induction false} TotalDropsOldest(table: seq<Field>)
    requires table != []
    ensures Total(table) == Total(table[..|table| - 1]) + Size(table[|table| - 1])
  {
    if |table| > 1 {
      TotalDropsOldest(table[1..]);
      assert table[..|table| - 1][1..] == table[1..][..|table| - 2];
    }
  }

  // ---- The table as a function of its history ------------------------------------------------

  datatype Table = Table(entries: seq<Field>, limit: nat)

  datatype Change = Insert(field: Field) | Resize(limit: nat)

  const NEW_TABLE := Table([], DEFAULT_LIMIT)

  function Apply(t: Table, c: Change): Table {
    match c
    case Insert(f) => Table(Fit([f] + t.entries, t.limit), t.limit)
    case Resize(n) => Table(Fit(t.entries, n), n)
  }

  function Replay(t: Table, changes: seq<Change>): Table
  {
    if changes == [] then t else Apply(Replay(t, changes[..|changes| - 1]), changes[|changes| - 1])
  }

  /** The fields inserted by these changes, newest first. */
  function Inserted(changes: seq<Change>): seq<Field> {
    if changes == [] then []
    else
      var older := Inserted(changes[..|changes| - 1]);
      if changes[|changes| - 1].Insert? then [changes[|changes| - 1].field] + older else older
  }

  function LimitAfter(changes: seq<Change>): nat {
    if changes == [] then DEFAULT_LIMIT
    else if changes[|changes| - 1].Resize? then changes[|changes| - 1].limit
    else LimitAfter(changes[..|changes| - 1])
  }

  /** After the first `j` changes, what was inserted since change `m` fitted the limit. */
  predicate FittedAt(changes: seq<Change>, m: nat, j: nat)
    requires m <= j <= |changes|
  {
    Total(Inserted(changes[m..j])) <= LimitAfter(changes[..j])
  }

  /** What was inserted since change `m` fitted the limit at every moment since. */
  ghost predicate AlwaysFitted(changes: seq<Change>, m: nat) {
    forall j :: m < j <= |changes| ==> FittedAt(changes, m, j)
  }

  lemma {:induction false} InsertedOldest(changes: seq<Change>)
    requires changes != []
    ensures Inserted(changes) ==
            Inserted(changes[1..]) + if changes[0].Insert? then [changes[0].field] else []
  {
    var n := |changes|;
    if n == 1 {
      assert changes[1..] == [] && changes[..0] == [];
    } else {
      InsertedOldest(changes[..n - 1]);
      assert changes[..n - 1][1..] == changes[1..][..n - 2];
      assert changes[1..][n - 2] == changes[n - 1];
    }
  }

  /** Leaving out the oldest change leaves out at most the oldest entry. */
  lemma WithoutOldest(changes: seq<Change>)
    requires changes != []
    ensures var all, rest := Inserted(changes), Inserted(changes[1..]);
      rest == all || (all != [] && rest == all[..|all| - 1])
    ensures Total(Inserted(changes[1..])) <= Total(Inserted(changes))
  {
    InsertedOldest(changes);
    if Inserted(changes) != [] {
      TotalDropsOldest(Inserted(changes));
    }
  }

  lemma FittedLater(changes: seq<Change>, m: nat)
    requires m < |changes| && AlwaysFitted(changes, m)
    ensures AlwaysFitted(changes, m + 1)
  {
    var next := m + 1;
    forall j | next < j <= |changes|
      ensures FittedAt(changes, next, j)
    {
      assert FittedAt(changes, m, j);
      WithoutOldest(changes[m..j]);
      assert changes[m..j][1..] == changes[m + 1..j];
    }
  }

  lemma FittedAtPrefix(changes: seq<Change>, n: nat, m: nat, j: nat)
    requires m <= j <= n <= |changes|
    ensures FittedAt(changes[..n], m, j) == FittedAt(changes, m, j)
  {
    assert changes[..n][m..j] == changes[m..j] && changes[..n][..j] == changes[..j];
  }

  lemma FittedBefore(changes: seq<Change>, m: nat)
    requires changes != [] && m < |changes| && AlwaysFitted(changes, m)
    ensures AlwaysFitted(changes[..|changes| - 1], m)
  {
    var before := changes[..|changes| - 1];
    forall j | m < j <= |before|
      ensures FittedAt(before, m, j)
    {
      FittedAtPrefix(changes, |before|, m, j);
      assert FittedAt(changes, m, j);
    }
  }

  lemma FittedNow(changes: seq<Change>, m: nat)
    requires m < |changes|
    ensures FittedAt(changes, m, |changes|) <==> Total(Inserted(changes[m..])) <= LimitAfter(changes)
  {
    assert changes[..|changes|] == changes && changes[m..|changes|] == changes[m..];
  }

  lemma StillFitted(changes: seq<Change>, m: nat)
    requires changes != [] && m < |changes| && AlwaysFitted(changes[..|changes| - 1], m)
    requires FittedAt(changes, m, |changes|)
    ensures AlwaysFitted(changes, m)
  {
    var before := changes[..|changes| - 1];
    forall j | m < j <= |changes|
      ensures FittedAt(changes, m, j)
    {
      if j < |changes| {
        FittedAtPrefix(changes, |before|, m, j);
        assert FittedAt(before, m, j);
      }
    }
  }

  /** The longest run of latest changes whose insertions have always fitted. */
  ghost predicate IsOldestKept(changes: seq<Change>, m: nat) {
    m <= |changes| && AlwaysFitted(changes, m) && forall k :: 0 <= k < m ==> !AlwaysFitted(changes, k)
  }

  /** Moves the mark past the changes whose insertions no longer fit. */
  lemma {:induction false} Advance(changes: seq<Change>, m: nat) returns (m': nat)
    requires changes != [] && m <= |changes| - 1
    requires AlwaysFitted(changes[..|changes| - 1], m)
    requires forall k :: 0 <= k < m ==> !AlwaysFitted(changes, k)
    ensures IsOldestKept(changes, m')
    ensures Inserted(changes[m'..]) == Fit(Inserted(changes[m..]), LimitAfter(changes))
    decreases |changes| - m
  {
    var all, limit := Inserted(changes[m..]), LimitAfter(changes);
    FittedNow(changes, m);
    if Total(all) <= limit {
      StillFitted(changes, m);
      FitWhole(all, limit);
      m' := m;
    } else {
      WithoutOldest(changes[m..]);
      assert changes[m..][1..] == changes[m + 1..];
      FitDropsOldest(all, limit);
      if m + 1 == |changes| {
        m' := m + 1;
        assert changes[m'..] == [];
      } else {
        FittedLater(changes[..|changes| - 1], m);
        m' := Advance(changes, m + 1);
      }
    }
  }

  /**
    * After any history the table holds exactly what the longest run of latest changes inserted that fitted the limit
    * at every moment since, newest first.
    */
  lemma {:induction false} TableIsHistory(changes: seq<Change>) returns (m: nat)
    ensures IsOldestKept(changes, m)
    ensures Replay(NEW_TABLE, changes) == Table(Inserted(changes[m..]), LimitAfter(changes))
  {
    if changes == [] {
      m := 0;
    } else {
      var n := |changes|;
      var before := changes[..n - 1];
      var m0 := TableIsHistory(before);
      forall k | 0 <= k < m0
        ensures !AlwaysFitted(changes, k)
      {
        if AlwaysFitted(changes, k) {
          FittedBefore(changes, k);
        }
      }
      assert changes[m0..][..|changes[m0..]| - 1] == before[m0..];
      m := Advance(changes, m0);
    }
  }
}
