/**
 * The ordering step of app.py: `sorted(comments, key=lambda x: x["like_count"], reverse=True)`.
 *
 * Python's sort is stable, also with `reverse=True`: records with equal
 * counts keep their relative order. Comparing a missing count (`None`) with
 * anything raises `TypeError`; a list of two or more records compares every
 * record at least once, so it raises exactly when some count is missing,
 * while a list of at most one record is returned as it is.
 */
module Ordering {
  import opened Wrappers
  import opened Comments

  predicate Counted(c: Comment) {
    c.likeCount.Some?
  }

  predicate AllCounted(s: seq<Comment>) {
    forall i :: 0 <= i < |s| ==> Counted(s[i])
  }

  /** The sort key: the like count of a record that has one. */
  function Likes(c: Comment): nat
    requires Counted(c)
  {
    c.likeCount.value
  }

  /** Like counts never increase from left to right. */
  ghost predicate NonIncreasing(s: seq<Comment>) {
    forall i, j :: 0 <= i < j < |s| ==> Counted(s[i]) && Counted(s[j]) && Likes(s[i]) >= Likes(s[j])
  }

  /** The records of `s` whose count is `key`, in their order in `s`. */
  function WithCount(s: seq<Comment>, key: Option<nat>): seq<Comment> {
    if s == [] then []
    else (if s[0].likeCount == key then [s[0]] else []) + WithCount(s[1..], key)
  }

  /** Records with equal counts appear in the same relative order in `r` as in `s`. */
  ghost predicate SameOrderPerCount(r: seq<Comment>, s: seq<Comment>) {
    forall key :: WithCount(r, key) == WithCount(s, key)
  }

  /** Put `c` in front of every record of `t` whose count is not above its own. */
  function Insert(c: Comment, t: seq<Comment>): (r: seq<Comment>)
    requires Counted(c) && AllCounted(t)
    ensures multiset(r) == multiset{c} + multiset(t)
    ensures AllCounted(r)
  {
    if t == [] || Likes(t[0]) <= Likes(c) then [c] + t
    else
      assert t == [t[0]] + t[1..];
      [t[0]] + Insert(c, t[1..])
  }

  /** A stable sort into non-increasing counts: insert each record before the equal ones after it. */
  function SortDescending(s: seq<Comment>): (r: seq<Comment>)
    requires AllCounted(s)
    ensures multiset(r) == multiset(s)
    ensures AllCounted(r)
  {
    if s == [] then []
    else
      assert s == [s[0]] + s[1..];
      Insert(s[0], SortDescending(s[1..]))
  }

  /** The sort of app.py:83, `TypeError` included. */
  function SortByLikes(comments: seq<Comment>): Result<seq<Comment>, Error> {
    if AllCounted(comments) then Success(SortDescending(comments))
    else if |comments| <= 1 then Success(comments)
    else Failure(TypeError)
  }

  /** Filtering a record put in front. */
  lemma WithCountCons(c: Comment, t: seq<Comment>, key: Option<nat>)
    ensures WithCount([c] + t, key) == (if c.likeCount == key then [c] else []) + WithCount(t, key)
  {
    assert ([c] + t)[1..] == t;
  }

  /** The filter keeps exactly the records of `s` with count `key`. */
  lemma {:induction false} WithCountMembers(s: seq<Comment>, key: Option<nat>)
    ensures forall x :: x in WithCount(s, key) <==> x in s && x.likeCount == key
  {
    if s != [] {
      WithCountMembers(s[1..], key);
      assert forall x :: x in s <==> x == s[0] || x in s[1..];
    }
  }

  /** Inserting `c` adds it to the records with its count, ahead of them, and changes no other count's records. */
  lemma {:induction false} InsertKeepsOrderPerCount(c: Comment, t: seq<Comment>, key: Option<nat>)
    requires Counted(c) && AllCounted(t)
    ensures WithCount(Insert(c, t), key) == (if c.likeCount == key then [c] else []) + WithCount(t, key)
  {
    if t == [] || Likes(t[0]) <= Likes(c) {
      WithCountCons(c, t, key);
    } else {
      var pc := if c.likeCount == key then [c] else [];
      var pt := if t[0].likeCount == key then [t[0]] else [];
      assert pc == [] || pt == [];
      assert t == [t[0]] + t[1..];
      InsertKeepsOrderPerCount(c, t[1..], key);
      WithCountCons(t[0], Insert(c, t[1..]), key);
      WithCountCons(t[0], t[1..], key);
      calc {
        WithCount(Insert(c, t), key);
        WithCount([t[0]] + Insert(c, t[1..]), key);
        pt + WithCount(Insert(c, t[1..]), key);
        pt + (pc + WithCount(t[1..], key));
        { assert pt + pc == pc + pt; }
        pc + (pt + WithCount(t[1..], key));
        pc + WithCount(t, key);
      }
    }
  }

  /** A record whose count is at least every count of a non-increasing sequence can go in front of it. */
  lemma ConsNonIncreasing(x: Comment, rest: seq<Comment>)
    requires Counted(x) && AllCounted(rest) && NonIncreasing(rest)
    requires forall j :: 0 <= j < |rest| ==> Likes(x) >= Likes(rest[j])
    ensures NonIncreasing([x] + rest)
  {
    var r := [x] + rest;
    forall i, j | 0 <= i < j < |r| ensures Counted(r[i]) && Counted(r[j]) && Likes(r[i]) >= Likes(r[j]) {
      assert r[j] == rest[j - 1];
      if i > 0 {
        assert r[i] == rest[i - 1];
      }
    }
  }

  /** Inserting `c` into `t` adds `c` and nothing else. */
  lemma InsertMembers(c: Comment, t: seq<Comment>)
    requires Counted(c) && AllCounted(t)
    ensures forall x :: x in Insert(c, t) ==> x == c || x in t
  {
    var r := Insert(c, t);
    forall x | x in r ensures x == c || x in t {
      assert x in multiset(r);
    }
  }

  /** Inserting into a non-increasing sequence keeps it non-increasing. */
  lemma {:induction false} InsertNonIncreasing(c: Comment, t: seq<Comment>)
    requires Counted(c) && AllCounted(t) && NonIncreasing(t)
    ensures NonIncreasing(Insert(c, t))
  {
    if t == [] || Likes(t[0]) <= Likes(c) {
      ConsNonIncreasing(c, t);
    } else {
      var rest := Insert(c, t[1..]);
      InsertNonIncreasing(c, t[1..]);
      InsertMembers(c, t[1..]);
      forall j | 0 <= j < |rest| ensures Likes(t[0]) >= Likes(rest[j]) {
        assert rest[j] in rest;
        if rest[j] != c {
          var k :| 0 <= k < |t[1..]| && t[1..][k] == rest[j];
          assert t[k + 1] == rest[j];
        }
      }
      ConsNonIncreasing(t[0], rest);
    }
  }

  /** The sort leaves counts non-increasing. */
  lemma {:induction false} SortNonIncreasing(s: seq<Comment>)
    requires AllCounted(s)
    ensures NonIncreasing(SortDescending(s))
  {
    if s != [] {
      SortNonIncreasing(s[1..]);
      InsertNonIncreasing(s[0], SortDescending(s[1..]));
    }
  }

  /** The sort is stable: records with equal counts keep their relative order. */
  lemma {:induction false} SortKeepsOrderPerCount(s: seq<Comment>, key: Option<nat>)
    requires AllCounted(s)
    ensures WithCount(SortDescending(s), key) == WithCount(s, key)
  {
    if s != [] {
      SortKeepsOrderPerCount(s[1..], key);
      InsertKeepsOrderPerCount(s[0], SortDescending(s[1..]), key);
    }
  }

  /**
   * The sort at app.py:83: it raises `TypeError` exactly when there are two
   * or more records and some count is missing; otherwise it returns a
   * permutation of its input with non-increasing counts in which records
   * with equal counts keep their input order.
   */
  lemma SortByLikesCorrect(comments: seq<Comment>)
    ensures SortByLikes(comments).Failure? <==>
              |comments| >= 2 && exists i :: 0 <= i < |comments| && comments[i].likeCount.None?
    ensures SortByLikes(comments).Failure? ==> SortByLikes(comments).error == TypeError
    ensures SortByLikes(comments).Success? ==>
              var r := SortByLikes(comments).value;
              multiset(r) == multiset(comments) && NonIncreasing(r) && SameOrderPerCount(r, comments)
  {
    if AllCounted(comments) {
      SortNonIncreasing(comments);
      forall key ensures WithCount(SortDescending(comments), key) == WithCount(comments, key) {
        SortKeepsOrderPerCount(comments, key);
      }
    }
  }

  /** A sequence with no record under any count is empty. */
  lemma NothingFiltered(t: seq<Comment>)
    requires forall key :: WithCount(t, key) == []
    ensures t == []
  {
    if t != [] {
      WithCountMembers(t, t[0].likeCount);
    }
  }

  /** In a non-increasing sequence the first record's count is at least that of any record in it. */
  lemma FirstIsLargest(t: seq<Comment>, x: Comment)
    requires NonIncreasing(t) && x in t && x != t[0]
    ensures Counted(x) && Counted(t[0]) && Likes(t[0]) >= Likes(x)
  {
    var i :| 0 <= i < |t| && t[i] == x;
  }

  /** Sequences that agree on every count hold the same records. */
  lemma SharedRecord(r: seq<Comment>, t: seq<Comment>, x: Comment)
    requires forall key :: WithCount(r, key) == WithCount(t, key)
    requires x in r
    ensures x in t
  {
    WithCountMembers(r, x.likeCount);
    WithCountMembers(t, x.likeCount);
    assert WithCount(r, x.likeCount) == WithCount(t, x.likeCount);
  }

  /** Two non-empty non-increasing sequences that agree on every count start with the same count. */
  lemma SameFirstCount(r: seq<Comment>, t: seq<Comment>)
    requires r != [] && t != [] && NonIncreasing(r) && NonIncreasing(t)
    requires forall key :: WithCount(r, key) == WithCount(t, key)
    ensures r[0].likeCount == t[0].likeCount
  {
    var a, b := r[0], t[0];
    SharedRecord(r, t, a);
    SharedRecord(t, r, b);
    if a != b {
      FirstIsLargest(t, a);
      FirstIsLargest(r, b);
    }
  }

  /** Two non-empty non-increasing sequences that agree on every count start with the same record. */
  lemma SameFirst(r: seq<Comment>, t: seq<Comment>)
    requires r != [] && t != [] && NonIncreasing(r) && NonIncreasing(t)
    requires forall key :: WithCount(r, key) == WithCount(t, key)
    ensures r[0] == t[0]
  {
    SameFirstCount(r, t);
    var key := r[0].likeCount;
    assert r == [r[0]] + r[1..] && t == [t[0]] + t[1..];
    WithCountCons(r[0], r[1..], key);
    WithCountCons(t[0], t[1..], key);
    assert WithCount(r, key)[0] == r[0];
    assert WithCount(t, key)[0] == t[0];
  }

  /**
   * A non-increasing sequence is fixed by which records carry each count and
   * in what order: two such sequences that agree on every count are equal.
   */
  lemma {:induction false} DeterminedByOrderPerCount(r: seq<Comment>, t: seq<Comment>)
    requires NonIncreasing(r) && NonIncreasing(t)
    requires forall key :: WithCount(r, key) == WithCount(t, key)
    ensures r == t
    decreases |r|
  {
    if r == [] {
      NothingFiltered(t);
    } else if t == [] {
      NothingFiltered(r);
    } else {
      SameFirst(r, t);
      assert r == [r[0]] + r[1..] && t == [t[0]] + t[1..];
      forall key ensures WithCount(r[1..], key) == WithCount(t[1..], key) {
        WithCountCons(r[0], r[1..], key);
        WithCountCons(t[0], t[1..], key);
        var p := if r[0].likeCount == key then [r[0]] else [];
        assert WithCount(r[1..], key) == WithCount(r, key)[|p|..];
        assert WithCount(t[1..], key) == WithCount(t, key)[|p|..];
      }
      DeterminedByOrderPerCount(r[1..], t[1..]);
    }
  }

  /**
   * `SortDescending` is the only order of its input with non-increasing
   * counts that keeps records with equal counts in input order.
   */
  lemma SortIsTheStableOrder(s: seq<Comment>, r: seq<Comment>)
    requires AllCounted(s)
    requires NonIncreasing(r) && SameOrderPerCount(r, s)
    ensures r == SortDescending(s)
  {
    SortNonIncreasing(s);
    forall key ensures WithCount(r, key) == WithCount(SortDescending(s), key) {
      SortKeepsOrderPerCount(s, key);
    }
    DeterminedByOrderPerCount(r, SortDescending(s));
  }

  /** Counts 5, missing, 20, 0: the sort raises rather than placing the missing count anywhere. */
  lemma MissingCountRaises(a: Option<string>, b: Option<string>, c: Option<string>, d: Option<string>)
    ensures SortByLikes([Comment(a, Some(5)), Comment(b, None), Comment(c, Some(20)), Comment(d, Some(0))]) == Failure(TypeError)
  {
    var s := [Comment(a, Some(5)), Comment(b, None), Comment(c, Some(20)), Comment(d, Some(0))];
    assert !Counted(s[1]);
  }

  /** A lone record is returned as it is, even without a count: nothing is compared. */
  lemma LoneRecordKept(c: Comment)
    ensures SortByLikes([c]) == Success([c])
  {
    if Counted(c) {
      assert AllCounted([c]) && [c][1..] == [];
      assert SortDescending([c]) == Insert(c, []) == [c] + [] == [c];
    }
  }
}
