/** Note identifiers, the order the database compares them in, and the
    checkpoint cursor that the synchroniser keeps between batches. */
module Ids {

  /** Strict lexicographic order on identifiers, character by character:
      `a` is a proper prefix of `b`, or at the first position where they
      differ `a` has the smaller character. This is the order PostgreSQL's
      "C" collation gives to the ASCII ids of notes. */
  predicate Below(a: string, b: string) {
    exists k :: 0 <= k <= |a| && k < |b| && a[..k] == b[..k] && (k == |a| || a[k] < b[k])
  }

  lemma BelowIrreflexive(a: string)
    ensures !Below(a, a)
  {
  }

  lemma BelowTransitive(a: string, b: string, c: string)
    requires Below(a, b) && Below(b, c)
    ensures Below(a, c)
  {
    var k1 :| 0 <= k1 <= |a| && k1 < |b| && a[..k1] == b[..k1] && (k1 == |a| || a[k1] < b[k1]);
    var k2 :| 0 <= k2 <= |b| && k2 < |c| && b[..k2] == c[..k2] && (k2 == |b| || b[k2] < c[k2]);
    var k := if k1 <= k2 then k1 else k2;
    assert a[..k] == a[..k1][..k] && b[..k] == b[..k1][..k];
    assert b[..k] == b[..k2][..k] && c[..k] == c[..k2][..k];
    if k1 < k2 {
      assert b[..k2][k1] == c[..k2][k1];
    } else if k2 < k1 {
      assert a[..k1][k2] == b[..k1][k2];
    }
    assert 0 <= k <= |a| && k < |c| && a[..k] == c[..k] && (k == |a| || a[k] < c[k]);
  }

  lemma BelowAsymmetric(a: string, b: string)
    requires Below(a, b)
    ensures !Below(b, a)
  {
    if Below(b, a) {
      BelowTransitive(a, b, a);
      BelowIrreflexive(a);
    }
  }

  /** Two strings that agree on their first k characters are equal or ordered. */
  lemma {:induction false} BelowTotalFrom(a: string, b: string, k: nat)
    requires k <= |a| && k <= |b| && a[..k] == b[..k]
    ensures a == b || Below(a, b) || Below(b, a)
    decreases |a| - k
  {
    if k == |a| && k == |b| {
      assert a == a[..k] && b == b[..k];
    } else if k == |a| || k == |b| || a[k] != b[k] {
      if k == |a| || (k < |b| && a[k] < b[k]) {
        assert Below(a, b);
      } else {
        assert Below(b, a);
      }
    } else {
      assert a[..k + 1] == a[..k] + [a[k]] && b[..k + 1] == b[..k] + [b[k]];
      BelowTotalFrom(a, b, k + 1);
    }
  }

  lemma BelowTotal(a: string, b: string)
    requires a != b
    ensures Below(a, b) || Below(b, a)
  {
    BelowTotalFrom(a, b, 0);
  }

  /** The persisted position of the synchroniser: nothing indexed yet, or the
      id of the last note the search index accepted. */
  datatype Cursor = Beginning | At(id: string)

  /** The query's `"note"."id" > cursor` condition. */
  predicate Above(id: string, c: Cursor) {
    c.Beginning? || Below(c.id, id)
  }

  lemma AboveTransitive(id: string, mid: string, c: Cursor)
    requires Above(mid, c) && Below(mid, id)
    ensures Above(id, c)
  {
    if c.At? {
      BelowTransitive(c.id, mid, id);
    }
  }
}
