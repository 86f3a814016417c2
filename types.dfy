/** Array elements as the visualiser sees them (src/types/index.ts), and the
    order facts about sequences of them that both sorts are proved against. */
module Types {

  /** The display state of one cell. */
  datatype State = Default | Comparing | Swapping | Sorted

  /** One cell: its sort key, its display state and a stable identity. */
  datatype Elem = Elem(value: int, state: State, id: string)

  /** Sorted by `value`, ties allowed. */
  ghost predicate NonDecreasing(s: seq<Elem>) {
    forall p, q :: 0 <= p < q < |s| ==> s[p].value <= s[q].value
  }

  /** Every cell is displayed as sorted. */
  ghost predicate AllSorted(s: seq<Elem>) {
    forall k :: 0 <= k < |s| ==> s[k].state == Sorted
  }

  /** Position by position, the same keys and identities (states may differ). */
  ghost predicate SameKeys(s: seq<Elem>, t: seq<Elem>) {
    |s| == |t| && forall k :: 0 <= k < |s| ==> s[k].value == t[k].value && s[k].id == t[k].id
  }

  /** `s` with `c` inserted before position `k`. */
  function InsertInto(s: seq<Elem>, k: int, c: Elem): (u: seq<Elem>)
    requires 0 <= k <= |s|
    ensures |u| == |s| + 1
  {
    seq(|s| + 1, x requires 0 <= x < |s| + 1 => if x < k then s[x] else if x == k then c else s[x - 1])
  }

  /** Inserting into a sequence is splitting it and putting the cell between. */
  lemma InsertIntoSplit(s: seq<Elem>, k: int, c: Elem)
    requires 0 <= k <= |s|
    ensures InsertInto(s, k, c) == s[..k] + [c] + s[k..]
  {
    var u, w := InsertInto(s, k, c), s[..k] + [c] + s[k..];
    forall x | 0 <= x < |u| ensures u[x] == w[x] {
      if x < k {
        assert w[x] == s[..k][x];
      } else if x > k {
        assert w[x] == s[k..][x - k - 1];
      }
    }
  }

  /** The identities of the cells whose value is `v`, in array order. */
  function IdsWith(s: seq<Elem>, v: int): seq<string> {
    if s == [] then []
    else (if s[0].value == v then [s[0].id] else []) + IdsWith(s[1..], v)
  }

  /** `s` is a stable permutation of `t`: for every value, the cells that
      carry it appear in both with the same identities in the same order. */
  ghost predicate StablePerm(s: seq<Elem>, t: seq<Elem>) {
    forall v :: IdsWith(s, v) == IdsWith(t, v)
  }

  /** The (value, id) pairs of a sequence, the identity of a cell apart from
      its display state. */
  function Keys(s: seq<Elem>): (r: seq<(int, string)>)
    ensures |r| == |s|
    ensures forall k :: 0 <= k < |s| ==> r[k] == (s[k].value, s[k].id)
  {
    if s == [] then [] else [(s[0].value, s[0].id)] + Keys(s[1..])
  }

  lemma {:induction false} IdsWithAppend(a: seq<Elem>, b: seq<Elem>, v: int)
    ensures IdsWith(a + b, v) == IdsWith(a, v) + IdsWith(b, v)
  {
    if a != [] {
      assert (a + b)[1..] == a[1..] + b;
      IdsWithAppend(a[1..], b, v);
    } else {
      assert a + b == b;
    }
  }

  lemma {:induction false} SameKeysIds(s: seq<Elem>, t: seq<Elem>, v: int)
    requires SameKeys(s, t)
    ensures IdsWith(s, v) == IdsWith(t, v)
  {
    if s != [] {
      SameKeysIds(s[1..], t[1..], v);
    }
  }

  /** Changing display states only never reorders anything. */
  lemma SameKeysStable(s: seq<Elem>, t: seq<Elem>)
    requires SameKeys(s, t)
    ensures StablePerm(s, t)
  {
    forall v ensures IdsWith(s, v) == IdsWith(t, v) {
      SameKeysIds(s, t, v);
    }
  }

  /** Exchanging two neighbours with different values keeps the permutation
      stable: this is why bubble sort's strict comparison makes it stable. */
  lemma SwapStable(s: seq<Elem>, j: int)
    requires 0 <= j < |s| - 1
    requires s[j].value != s[j + 1].value
    ensures StablePerm(s[j := s[j + 1]][j + 1 := s[j]], s)
  {
    var t := s[j := s[j + 1]][j + 1 := s[j]];
    assert s == s[..j] + ([s[j]] + [s[j + 1]]) + s[j + 2..];
    assert t == s[..j] + ([s[j + 1]] + [s[j]]) + s[j + 2..];
    forall v ensures IdsWith(t, v) == IdsWith(s, v) {
      IdsWithAppend(s[..j] + ([s[j + 1]] + [s[j]]), s[j + 2..], v);
      IdsWithAppend(s[..j], [s[j + 1]] + [s[j]], v);
      IdsWithAppend([s[j + 1]], [s[j]], v);
      IdsWithAppend(s[..j] + ([s[j]] + [s[j + 1]]), s[j + 2..], v);
      IdsWithAppend(s[..j], [s[j]] + [s[j + 1]], v);
      IdsWithAppend([s[j]], [s[j + 1]], v);
    }
  }

  /** Moving `c` in front of a block of strictly larger values keeps the
      permutation stable: this is why insertion sort's strict comparison
      makes it stable. */
  lemma InsertBeforeLargerStable(front: seq<Elem>, block: seq<Elem>, c: Elem)
    requires forall q :: 0 <= q < |block| ==> block[q].value > c.value
    ensures StablePerm(front + [c] + block, front + block + [c])
  {
    forall v ensures IdsWith(front + [c] + block, v) == IdsWith(front + block + [c], v) {
      IdsWithAppend(front + [c], block, v);
      IdsWithAppend(front, [c], v);
      IdsWithAppend(front + block, [c], v);
      IdsWithAppend(front, block, v);
      if v == c.value {
        NoneWith(block, v);
      }
    }
  }

  lemma {:induction false} NoneWith(s: seq<Elem>, v: int)
    requires forall q :: 0 <= q < |s| ==> s[q].value != v
    ensures IdsWith(s, v) == []
  {
    if s != [] {
      NoneWith(s[1..], v);
    }
  }

  /** Appending cells with the same key to two stable permutations. */
  lemma AppendStable(s: seq<Elem>, t: seq<Elem>, x: Elem, y: Elem)
    requires StablePerm(s, t)
    requires x.value == y.value && x.id == y.id
    ensures StablePerm(s + [x], t + [y])
  {
    forall v ensures IdsWith(s + [x], v) == IdsWith(t + [y], v) {
      IdsWithAppend(s, [x], v);
      IdsWithAppend(t, [y], v);
    }
  }

  /** A value occurs in a sequence exactly when some identity carries it. */
  lemma {:induction false} IdsWithOccurs(s: seq<Elem>, v: int)
    ensures IdsWith(s, v) != [] <==> exists q :: 0 <= q < |s| && s[q].value == v
  {
    if s != [] {
      IdsWithOccurs(s[1..], v);
      if IdsWith(s[1..], v) != [] {
        var q :| 0 <= q < |s| - 1 && s[1..][q].value == v;
        assert s[q + 1].value == v;
      }
      if exists q :: 0 <= q < |s| && s[q].value == v {
        var q :| 0 <= q < |s| && s[q].value == v;
        if q > 0 {
          assert s[1..][q - 1].value == v;
        }
      }
    }
  }

  /** Every value of a stable permutation of `t` is a value of `t`. */
  lemma StableValueOccurs(s: seq<Elem>, t: seq<Elem>, k: int)
    requires StablePerm(s, t)
    requires 0 <= k < |s|
    ensures exists q :: 0 <= q < |t| && t[q].value == s[k].value
  {
    IdsWithOccurs(s, s[k].value);
    IdsWithOccurs(t, s[k].value);
  }

  /** How often a key occurs equals how often its identity is listed among
      the cells with its value. */
  lemma {:induction false} KeyCount(s: seq<Elem>, v: int, id: string)
    ensures multiset(Keys(s))[(v, id)] == multiset(IdsWith(s, v))[id]
  {
    if s != [] {
      KeyCount(s[1..], v, id);
      assert Keys(s) == [(s[0].value, s[0].id)] + Keys(s[1..]);
    }
  }

  /** A stable permutation is a permutation of the (value, id) keys. */
  lemma {:induction false} StablePermIsPermutation(s: seq<Elem>, t: seq<Elem>)
    requires StablePerm(s, t)
    ensures multiset(Keys(s)) == multiset(Keys(t))
  {
    forall key: (int, string) ensures multiset(Keys(s))[key] == multiset(Keys(t))[key] {
      KeyCount(s, key.0, key.1);
      KeyCount(t, key.0, key.1);
      assert IdsWith(s, key.0) == IdsWith(t, key.0);
    }
  }
}
