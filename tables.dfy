/** A database table: rows keyed by an integer primary key, plus the counter
    that supplies the key of the next inserted row. */
module Tables {

  /** Strictly ascending, hence without repetitions. */
  predicate Increasing(s: seq<nat>)
  {
    forall i, j :: 0 <= i < j < |s| ==> s[i] < s[j]
  }

  /** The keys of `m` below `n`, in ascending order. */
  function IdsBelow<V>(m: map<nat, V>, n: nat): (ids: seq<nat>)
    ensures Increasing(ids)
    ensures forall k :: k in ids <==> k in m && k < n
    ensures forall i :: 0 <= i < |ids| ==> ids[i] < n
  {
    if n == 0 then []
    else
      var below := IdsBelow(m, n - 1);
      if n - 1 in m then below + [n - 1] else below
  }

  /** An empty map has no keys to list. */
  lemma {:induction false} IdsBelowEmpty<V>(m: map<nat, V>, n: nat)
    requires m == map[]
    ensures IdsBelow(m, n) == []
  {
    if n > 0 {
      IdsBelowEmpty(m, n - 1);
    }
  }

  datatype Table<V> = Table(rows: map<nat, V>, next: nat) {

    /** Every key was handed out by the counter. */
    ghost predicate Valid()
    {
      forall k :: k in rows ==> k < next
    }

    /** The primary keys in ascending order: the order in which a query
        without ORDER BY is taken to return the rows. */
    function Ids(): (ids: seq<nat>)
      ensures Increasing(ids)
      ensures forall k :: k in ids <==> k in rows && k < next
      ensures Valid() ==> forall k :: k in ids <==> k in rows
    {
      IdsBelow(rows, next)
    }

    /** Inserts `v` under a fresh key, the current counter. */
    function Insert(v: V): (t: Table<V>)
      requires Valid()
      ensures t.Valid()
      ensures next !in rows && next in t.rows && t.rows[next] == v
      ensures forall k :: k in rows ==> k in t.rows && t.rows[k] == rows[k]
      ensures t.rows.Keys == rows.Keys + {next}
    {
      Table(rows[next := v], next + 1)
    }
  }

  /** `[f(row) for row in table.query.all()]`: one image per row, in key order. */
  function Project<V, J>(t: Table<V>, f: (nat, V) -> J): (r: seq<J>)
    ensures |r| == |t.Ids()|
    ensures forall i :: 0 <= i < |r| ==> t.Ids()[i] in t.rows && r[i] == f(t.Ids()[i], t.rows[t.Ids()[i]])
  {
    var ids := t.Ids();
    seq(|ids|, i requires 0 <= i < |ids| => f(ids[i], t.rows[ids[i]]))
  }

  /** Every row of the table appears in its projection, at the position of its key. */
  lemma ProjectCovers<V, J>(t: Table<V>, f: (nat, V) -> J, k: nat)
    requires k in t.rows && k < t.next
    ensures exists i :: 0 <= i < |Project(t, f)| && t.Ids()[i] == k && Project(t, f)[i] == f(k, t.rows[k])
  {
    var ids := t.Ids();
    assert k in ids;
    var i :| 0 <= i < |ids| && ids[i] == k;
    assert Project(t, f)[i] == f(k, t.rows[k]);
  }
}
