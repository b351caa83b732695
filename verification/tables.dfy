/** The query operations the repositories use on a table, with Django's
    semantics: a table is the sequence of its rows in query order. */
module Tables {
  import opened Wrappers

  /** `a` is `b` with some rows left out, order kept. */
  ghost predicate Subsequence<T>(a: seq<T>, b: seq<T>)
    decreases |b|
  {
    |a| <= |b| &&
    (a == [] || (|b| > 0 && ((a[0] == b[0] && Subsequence(a[1..], b[1..])) || Subsequence(a, b[1..]))))
  }

  lemma {:induction false} SubsequenceOfEmpty<T>(b: seq<T>)
    ensures Subsequence([], b)
  {
  }

  lemma {:induction false} SubsequenceRefl<T>(a: seq<T>)
    ensures Subsequence(a, a)
    decreases |a|
  {
    if a != [] {
      SubsequenceRefl(a[1..]);
    }
  }

  /** A subsequence of a subsequence is a subsequence. */
  lemma {:induction false} SubsequenceTrans<T>(a: seq<T>, b: seq<T>, c: seq<T>)
    requires Subsequence(a, b) && Subsequence(b, c)
    ensures Subsequence(a, c)
    decreases |c|
  {
    if a != [] {
      if b[0] == c[0] && Subsequence(b[1..], c[1..]) {
        if a[0] == b[0] && Subsequence(a[1..], b[1..]) {
          SubsequenceTrans(a[1..], b[1..], c[1..]);
        } else {
          SubsequenceTrans(a, b[1..], c[1..]);
        }
      } else {
        SubsequenceTrans(a, b, c[1..]);
      }
    }
  }

  /** `filter(...)`: the rows satisfying `keep`, in order. */
  function Filter<T>(rows: seq<T>, keep: T -> bool): (r: seq<T>)
    ensures |r| <= |rows|
    ensures forall k | 0 <= k < |r| :: r[k] in rows && keep(r[k])
    ensures forall k | 0 <= k < |rows| && keep(rows[k]) :: rows[k] in r
    ensures Subsequence(r, rows)
  {
    if rows == [] then []
    else if keep(rows[0]) then [rows[0]] + Filter(rows[1..], keep)
    else
      Filter(rows[1..], keep)
  }

  /** `filter(...).count()`. */
  function Count<T>(rows: seq<T>, keep: T -> bool): (n: nat)
    ensures n <= |rows|
  {
    |Filter(rows, keep)|
  }

  /** `filter(...).exists()`. */
  predicate Exists<T>(rows: seq<T>, keep: T -> bool) {
    Count(rows, keep) > 0
  }

  lemma {:induction false} ExistsMeansSome<T>(rows: seq<T>, keep: T -> bool)
    ensures Exists(rows, keep) <==> exists i | 0 <= i < |rows| :: keep(rows[i])
  {
    var f := Filter(rows, keep);
    if Exists(rows, keep) {
      assert f[0] in f;
      var i :| 0 <= i < |rows| && rows[i] == f[0];
    } else {
      forall i | 0 <= i < |rows| ensures !keep(rows[i]) {
        assert rows[i] in rows;
      }
    }
  }

  /** Counting a condition and its negation counts every row once. */
  lemma {:induction false} CountComplement<T>(rows: seq<T>, keep: T -> bool, drop: T -> bool)
    requires forall k | 0 <= k < |rows| :: drop(rows[k]) == !keep(rows[k])
    ensures Count(rows, keep) + Count(rows, drop) == |rows|
  {
    if rows != [] {
      CountComplement(rows[1..], keep, drop);
    }
  }

  /** Two conditions that can never hold together and cover every row
      split the count between them. */
  lemma {:induction false} CountPartition<T>(rows: seq<T>, p: T -> bool, q: T -> bool)
    requires forall i | 0 <= i < |rows| :: p(rows[i]) != q(rows[i])
    ensures Count(rows, p) + Count(rows, q) == |rows|
  {
    if rows != [] {
      CountPartition(rows[1..], p, q);
    }
  }

  /** Filtering by a stronger condition never counts more. */
  lemma {:induction false} CountMonotone<T>(rows: seq<T>, p: T -> bool, q: T -> bool)
    requires forall k | 0 <= k < |rows| :: p(rows[k]) ==> q(rows[k])
    ensures Count(rows, p) <= Count(rows, q)
  {
    if rows != [] {
      CountMonotone(rows[1..], p, q);
    }
  }

  /** No two rows share a key. */
  ghost predicate UniqueBy<T, K>(rows: seq<T>, key: T -> K) {
    forall a, b | 0 <= a < b < |rows| :: key(rows[a]) != key(rows[b])
  }

  /** Every element of a subsequence sits at some position of the whole. */
  lemma {:induction false} SubsequenceMember<T>(a: seq<T>, b: seq<T>, i: int)
    requires Subsequence(a, b) && 0 <= i < |a|
    ensures exists k | 0 <= k < |b| :: b[k] == a[i]
    decreases |b|
  {
    if a[0] == b[0] && Subsequence(a[1..], b[1..]) {
      if i == 0 {
        assert b[0] == a[0];
      } else {
        SubsequenceMember(a[1..], b[1..], i - 1);
        var k :| 0 <= k < |b[1..]| && b[1..][k] == a[1..][i - 1];
        assert b[k + 1] == a[i];
      }
    } else {
      SubsequenceMember(a, b[1..], i);
      var k :| 0 <= k < |b[1..]| && b[1..][k] == a[i];
      assert b[k + 1] == a[i];
    }
  }

  /** Leaving rows out keeps keys unique. */
  lemma {:induction false} SubsequenceKeepsUnique<T, K>(a: seq<T>, b: seq<T>, key: T -> K)
    requires Subsequence(a, b) && UniqueBy(b, key)
    ensures UniqueBy(a, key)
    decreases |b|
  {
    if a != [] {
      if a[0] == b[0] && Subsequence(a[1..], b[1..]) {
        SubsequenceKeepsUnique(a[1..], b[1..], key);
        forall j | 0 < j < |a| ensures key(a[0]) != key(a[j]) {
          SubsequenceMember(a[1..], b[1..], j - 1);
          var k :| 0 <= k < |b[1..]| && b[1..][k] == a[1..][j - 1];
          assert b[k + 1] == a[j];
        }
      } else {
        SubsequenceKeepsUnique(a, b[1..], key);
      }
    }
  }

  /** When every row a condition keeps carries one key and keys are
      unique, the condition keeps at most one row. */
  lemma {:induction false} AtMostOneWithKey<T, K>(rows: seq<T>, key: T -> K, keep: T -> bool, k: K)
    requires UniqueBy(rows, key)
    requires forall i | 0 <= i < |rows| :: keep(rows[i]) ==> key(rows[i]) == k
    ensures Count(rows, keep) <= 1
    decreases |rows|
  {
    if rows != [] {
      var rest := rows[1..];
      if keep(rows[0]) {
        forall i | 0 <= i < |rest| ensures !keep(rest[i]) {
          assert key(rows[0]) != key(rows[i + 1]);
        }
        ExistsMeansSome(rest, keep);
      } else {
        AtMostOneWithKey(rest, key, keep, k);
      }
    }
  }

  /** The row at position `i` is what `get` finds when it is the only
      one the condition could keep. */
  lemma GetFinds<T, K>(rows: seq<T>, key: T -> K, keep: T -> bool, k: K, i: int)
    requires UniqueBy(rows, key)
    requires forall j | 0 <= j < |rows| :: keep(rows[j]) ==> key(rows[j]) == k
    requires 0 <= i < |rows| && keep(rows[i])
    ensures Get(rows, keep) == Ok(Some(rows[i]))
  {
    AtMostOneWithKey(rows, key, keep, k);
    assert rows[i] in Filter(rows, keep);
  }

  /** `values_list(...)`: one column of each row, in order. */
  function Project<T, U>(rows: seq<T>, column: T -> U): (r: seq<U>)
    ensures |r| == |rows| && forall k | 0 <= k < |rows| :: r[k] == column(rows[k])
  {
    seq(|rows|, k requires 0 <= k < |rows| => column(rows[k]))
  }

  /** The column of a filtered query holds the value of every row the
      filter keeps, and only such values. */
  lemma FilterProject<T, U>(rows: seq<T>, keep: T -> bool, column: T -> U)
    ensures forall i | 0 <= i < |rows| && keep(rows[i]) :: column(rows[i]) in Project(Filter(rows, keep), column)
    ensures forall k | 0 <= k < |Filter(rows, keep)| ::
      exists i | 0 <= i < |rows| :: keep(rows[i]) && rows[i] == Filter(rows, keep)[k]
  {
    var f := Filter(rows, keep);
    var r := Project(f, column);
    forall i | 0 <= i < |rows| && keep(rows[i]) ensures column(rows[i]) in r {
      var k :| 0 <= k < |f| && f[k] == rows[i];
      assert r[k] == column(rows[i]);
    }
    forall k | 0 <= k < |f| ensures exists i | 0 <= i < |rows| :: keep(rows[i]) && rows[i] == f[k] {
      assert f[k] in rows;
    }
  }

  datatype LookupError = MultipleObjectsReturned

  /** `objects.get(...)`: the one matching row, none (`DoesNotExist`), or
      an error when several match. */
  function Get<T>(rows: seq<T>, keep: T -> bool): (r: Result<Option<T>, LookupError>)
    ensures r == Ok(None) <==> !Exists(rows, keep)
    ensures r.Err? <==> Count(rows, keep) > 1
    ensures r.Ok? && r.value.Some? ==> r.value.value in rows && keep(r.value.value)
  {
    var matches := Filter(rows, keep);
    if |matches| == 0 then Ok(None)
    else if |matches| == 1 then (assert matches[0] in matches; Ok(Some(matches[0])))
    else Err(MultipleObjectsReturned)
  }

  /** `filter(...).first()`: the first row the condition keeps, if any. */
  function First<T>(rows: seq<T>, keep: T -> bool): (r: Option<T>)
    ensures r.None? <==> !Exists(rows, keep)
    ensures r.Some? ==> r.value in rows && keep(r.value)
  {
    var matches := Filter(rows, keep);
    if matches == [] then None else (assert matches[0] in matches; Some(matches[0]))
  }

  /** When keys are unique, the first row carrying a key is the row at the
      position holding it. */
  lemma FirstFinds<T, K>(rows: seq<T>, key: T -> K, keep: T -> bool, k: K, i: int)
    requires UniqueBy(rows, key)
    requires forall j | 0 <= j < |rows| :: keep(rows[j]) ==> key(rows[j]) == k
    requires 0 <= i < |rows| && keep(rows[i])
    ensures First(rows, keep) == Some(rows[i])
  {
    AtMostOneWithKey(rows, key, keep, k);
    assert rows[i] in Filter(rows, keep);
  }

  /** Counting within a filtered query counts the rows meeting both
      conditions. */
  lemma {:induction false} CountFiltered<T>(rows: seq<T>, keep: T -> bool, p: T -> bool, both: T -> bool)
    requires forall k | 0 <= k < |rows| :: both(rows[k]) == (keep(rows[k]) && p(rows[k]))
    ensures Count(Filter(rows, keep), p) == Count(rows, both)
  {
    if rows != [] {
      CountFiltered(rows[1..], keep, p, both);
      if keep(rows[0]) {
        assert Filter(rows, keep) == [rows[0]] + Filter(rows[1..], keep);
        assert ([rows[0]] + Filter(rows[1..], keep))[1..] == Filter(rows[1..], keep);
      }
    }
  }

  /** A condition that is the disjoint union of two others counts as many
      rows as the two together. */
  lemma {:induction false} CountSplit<T>(rows: seq<T>, p: T -> bool, a: T -> bool, b: T -> bool)
    requires forall k | 0 <= k < |rows| :: p(rows[k]) == (a(rows[k]) || b(rows[k]))
    requires forall k | 0 <= k < |rows| :: !(a(rows[k]) && b(rows[k]))
    ensures Count(rows, p) == Count(rows, a) + Count(rows, b)
  {
    if rows != [] {
      CountSplit(rows[1..], p, a, b);
    }
  }

  datatype SliceError = NegativeIndexing

  function Min(a: int, b: int): int { if a <= b then a else b }

  /** `queryset[start:end]`: negative bounds are refused; otherwise the
      rows at positions `start` up to `end`, cut at the table's end. */
  function Slice<T>(rows: seq<T>, start: int, end: int): (r: Result<seq<T>, SliceError>)
    ensures r.Err? <==> start < 0 || end < 0
    ensures r.Ok? ==> |r.value| == if Min(end, |rows|) <= start then 0 else Min(end, |rows|) - start
    ensures r.Ok? ==> forall k | 0 <= k < |r.value| :: start + k < |rows| && r.value[k] == rows[start + k]
  {
    if start < 0 || end < 0 then Err(NegativeIndexing)
    else
      var hi := Min(end, |rows|);
      if hi <= start then Ok([]) else Ok(rows[start..hi])
  }

  /** The slice `[(page - 1) * pageSize, (page - 1) * pageSize + pageSize)`. */
  function PageOf<T>(rows: seq<T>, page: int, pageSize: int): (r: Result<seq<T>, SliceError>)
    ensures r.Ok? ==> |r.value| <= if pageSize < 0 then 0 else pageSize
  {
    var start := (page - 1) * pageSize;
    Slice(rows, start, start + pageSize)
  }

  /** Every row is shown on exactly the page its position says, at the
      position the remainder says. */
  lemma PageHolds<T>(rows: seq<T>, i: nat, pageSize: int)
    requires pageSize >= 1 && i < |rows|
    ensures var r := PageOf(rows, i / pageSize + 1, pageSize);
      r.Ok? && i % pageSize < |r.value| && r.value[i % pageSize] == rows[i]
  {
    PageArithmetic(i, pageSize);
  }

  /** Position `i` lies `i % pageSize` rows into page `i / pageSize + 1`. */
  lemma PageArithmetic(i: nat, pageSize: int)
    requires pageSize >= 1
    ensures var start := (i / pageSize + 1 - 1) * pageSize;
      0 <= start && start + i % pageSize == i && i % pageSize < pageSize
  {
    var q := i / pageSize;
    assert q + 1 - 1 == q;
    assert q * pageSize + i % pageSize == i;
    assert q * pageSize >= 0 by {
      assert q >= 0;
    }
  }

  /** A page never shows a row from another page. */
  lemma PageWindow<T>(rows: seq<T>, page: int, pageSize: int, k: int)
    requires PageOf(rows, page, pageSize).Ok? && 0 <= k < |PageOf(rows, page, pageSize).value|
    ensures var start := (page - 1) * pageSize;
      start <= start + k < start + pageSize && PageOf(rows, page, pageSize).value[k] == rows[start + k]
  {
  }
}
