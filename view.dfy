/**
 The index lists behind the search view: which positions of the post list
 the view should show for a query, and what the application's list edits
 (append, `del`, `index`, the shift after a delete) do to such a list.
 */
module View {
  import opened Text
  import opened Posts

  /** `list(range(n))`. */
  function Range(n: nat): (r: seq<nat>)
    ensures |r| == n
    ensures forall k :: 0 <= k < n ==> r[k] == k
  {
    if n == 0 then [] else Range(n - 1) + [n - 1]
  }

  /**
   The positions `i` with `posts[i].matches_search(query)`, in the order the
   `enumerate` scan of `filter_posts` appends them.
   */
  function MatchingPositions(ps: seq<PostFields>, query: string): seq<nat>
    decreases |ps|
  {
    if ps == [] then []
    else MatchingPositions(ps[..|ps| - 1], query) + (if Matches(ps[|ps| - 1], query) then [|ps| - 1] else [])
  }

  predicate StrictlyAscending(s: seq<nat>) {
    forall a, b :: 0 <= a < b < |s| ==> s[a] < s[b]
  }

  /**
   The matching positions are strictly ascending, lie inside the list, and are
   exactly the positions of the posts that match.
   */
  lemma {:induction false} MatchingPositionsSpec(ps: seq<PostFields>, query: string)
    ensures var r := MatchingPositions(ps, query);
            && StrictlyAscending(r)
            && (forall k :: 0 <= k < |r| ==> r[k] < |ps|)
            && (forall i: int :: i in r <==> 0 <= i < |ps| && Matches(ps[i], query))
    decreases |ps|
  {
    if ps != [] {
      var n := |ps| - 1;
      var init := ps[..n];
      var m := MatchingPositions(init, query);
      var last: seq<nat> := if Matches(ps[n], query) then [n] else [];
      MatchingPositionsSpec(init, query);
      assert MatchingPositions(ps, query) == m + last;
      forall i: int ensures i in m + last <==> 0 <= i < |ps| && Matches(ps[i], query) {
        if 0 <= i < n {
          assert init[i] == ps[i];
        }
      }
    }
  }

  /** The head of a strictly ascending list is its least member. */
  lemma HeadIsLeast(s: seq<nat>, x: nat)
    requires StrictlyAscending(s) && x in s
    ensures s[0] <= x
  {
    var a :| 0 <= a < |s| && s[a] == x;
    assert a == 0 || s[0] < s[a];
  }

  /** The tail of a strictly ascending list is strictly ascending and holds every member but the head. */
  lemma TailMembers(s: seq<nat>)
    requires StrictlyAscending(s) && s != []
    ensures StrictlyAscending(s[1..])
    ensures forall x :: x in s[1..] <==> x in s && x != s[0]
  {
    forall x ensures x in s[1..] <==> x in s && x != s[0] {
      if x in s[1..] {
        var a :| 0 <= a < |s[1..]| && s[1..][a] == x;
        assert s[a + 1] == x && s[0] < s[a + 1];
      }
      if x in s && x != s[0] {
        var a :| 0 <= a < |s| && s[a] == x;
        assert s[1..][a - 1] == x;
      }
    }
  }

  /** Two strictly ascending lists with the same members are the same list. */
  lemma {:induction false} AscendingUnique(s: seq<nat>, t: seq<nat>)
    requires StrictlyAscending(s) && StrictlyAscending(t)
    requires forall i :: i in s <==> i in t
    ensures s == t
    decreases |s| + |t|
  {
    if s != [] {
      assert s[0] in t;
    }
    if t != [] {
      assert t[0] in s;
    }
    if s != [] && t != [] {
      HeadIsLeast(s, t[0]);
      HeadIsLeast(t, s[0]);
      TailMembers(s);
      TailMembers(t);
      AscendingUnique(s[1..], t[1..]);
      assert s == [s[0]] + s[1..] && t == [t[0]] + t[1..];
    }
  }

  /** A strictly ascending list with the members of the matching positions is the matching positions. */
  lemma IsMatchingPositions(s: seq<nat>, ps: seq<PostFields>, query: string)
    requires StrictlyAscending(s)
    requires forall i: int :: i in s <==> 0 <= i < |ps| && Matches(ps[i], query)
    ensures s == MatchingPositions(ps, query)
  {
    MatchingPositionsSpec(ps, query);
    AscendingUnique(s, MatchingPositions(ps, query));
  }

  /** With the empty query every position matches, so the view shows the whole list. */
  lemma {:induction false} MatchingEmptyQuery(ps: seq<PostFields>)
    ensures MatchingPositions(ps, "") == Range(|ps|)
    decreases |ps|
  {
    if ps != [] {
      MatchingEmptyQuery(ps[..|ps| - 1]);
      EmptyQueryMatches(ps[|ps| - 1]);
    }
  }

  /** Appending a post appends its position exactly when it matches; earlier positions stay. */
  lemma MatchingAfterAppend(ps: seq<PostFields>, p: PostFields, query: string)
    ensures MatchingPositions(ps + [p], query)
            == MatchingPositions(ps, query) + (if Matches(p, query) then [|ps|] else [])
  {
    assert (ps + [p])[..|ps|] == ps;
  }

  /** `s[:k] + s[k+1:]`, the list after `del s[k]`. */
  function RemoveAt<T>(s: seq<T>, k: nat): (r: seq<T>)
    requires k < |s|
    ensures |r| == |s| - 1
    ensures forall j :: 0 <= j < |r| ==> r[j] == if j < k then s[j] else s[j + 1]
  {
    s[..k] + s[k + 1..]
  }

  /** `s.index(x)`: the first position holding `x`. */
  function IndexOf(s: seq<nat>, x: nat): (k: nat)
    requires x in s
    ensures k < |s| && s[k] == x
    ensures forall j :: 0 <= j < k ==> s[j] != x
    decreases |s|
  {
    if s[0] == x then 0 else 1 + IndexOf(s[1..], x)
  }

  /** `[j - 1 if j > i else j for j in s]`. */
  function ShiftDown(s: seq<nat>, i: nat): (r: seq<nat>)
    ensures |r| == |s|
    ensures forall k :: 0 <= k < |s| ==> r[k] == if s[k] > i then s[k] - 1 else s[k]
  {
    seq(|s|, k requires 0 <= k < |s| => if s[k] > i then s[k] - 1 else s[k])
  }

  /** `del s[k]` keeps the elements pairwise different, and the removed one no longer occurs. */
  lemma DistinctAfterRemove<T>(s: seq<T>, k: nat)
    requires Distinct(s) && k < |s|
    ensures Distinct(RemoveAt(s, k)) && s[k] !in RemoveAt(s, k)
  {
    var r := RemoveAt(s, k);
    forall a, b | 0 <= a < b < |r| ensures r[a] != r[b] {
      assert r[a] == s[if a < k then a else a + 1];
      assert r[b] == s[if b < k then b else b + 1];
    }
    forall j | 0 <= j < |r| ensures r[j] != s[k] {
      assert r[j] == s[if j < k then j else j + 1];
    }
  }

  /** Shifting a list of different indices that does not hold `i` keeps them different. */
  lemma DistinctAfterShift(s: seq<nat>, i: nat)
    requires Distinct(s) && i !in s
    ensures Distinct(ShiftDown(s, i))
  {
    var r := ShiftDown(s, i);
    forall a, b | 0 <= a < b < |r| ensures r[a] != r[b] {
      assert s[a] != s[b] && s[a] != i && s[b] != i;
    }
  }

  /** `j` names, after position `i` is deleted, a position that list `m` held before the delete. */
  predicate AfterDelete(m: seq<nat>, i: nat, j: nat) {
    (j < i && j in m) || (j >= i && j + 1 in m)
  }

  /** Renumbering a list that does not hold `i` keeps it ascending and moves every member above `i` down by one. */
  lemma ShiftDownMembers(s: seq<nat>, i: nat)
    requires StrictlyAscending(s) && i !in s
    ensures StrictlyAscending(ShiftDown(s, i))
    ensures forall j: nat :: j in ShiftDown(s, i) <==> AfterDelete(s, i, j)
  {
    var r := ShiftDown(s, i);
    forall j: nat ensures j in r <==> AfterDelete(s, i, j) {
      if j in r {
        var k :| 0 <= k < |r| && r[k] == j;
        assert s[k] in s;
      }
      if j < i && j in s {
        var k :| 0 <= k < |s| && s[k] == j;
        assert r[k] == j;
      }
      if j >= i && j + 1 in s {
        var k :| 0 <= k < |s| && s[k] == j + 1;
        assert r[k] == j;
      }
    }
  }

  /** `del s[k]` keeps a strictly ascending list strictly ascending. */
  lemma RemoveKeepsAscending(s: seq<nat>, k: nat)
    requires StrictlyAscending(s) && k < |s|
    ensures StrictlyAscending(RemoveAt(s, k))
  {
    var r := RemoveAt(s, k);
    forall a, b | 0 <= a < b < |r| ensures r[a] < r[b] {
      assert r[a] == s[if a < k then a else a + 1];
      assert r[b] == s[if b < k then b else b + 1];
    }
  }

  /** What remains after `del s[k]` was in `s`, and is not `s[k]` when `s` is strictly ascending. */
  lemma InRemoved(s: seq<nat>, k: nat, j: nat)
    requires StrictlyAscending(s) && k < |s| && j in RemoveAt(s, k)
    ensures j in s && j != s[k]
  {
    var r := RemoveAt(s, k);
    var a :| 0 <= a < |r| && r[a] == j;
    var a' := if a < k then a else a + 1;
    assert s[a'] == j;
    assert a' < k ==> s[a'] < s[k];
    assert a' > k ==> s[k] < s[a'];
  }

  /** Every element of `s` other than `s[k]` survives `del s[k]`. */
  lemma StillInRemoved(s: seq<nat>, k: nat, j: nat)
    requires k < |s| && j in s && j != s[k]
    ensures j in RemoveAt(s, k)
  {
    var a :| 0 <= a < |s| && s[a] == j;
    assert RemoveAt(s, k)[if a < k then a else a - 1] == j;
  }

  /** Deleting the one occurrence of `x` from a strictly ascending list keeps it ascending and loses only `x`. */
  lemma RemoveMember(s: seq<nat>, x: nat)
    requires StrictlyAscending(s) && x in s
    ensures var r := RemoveAt(s, IndexOf(s, x));
            StrictlyAscending(r) && forall j :: j in r <==> j in s && j != x
  {
    var k := IndexOf(s, x);
    RemoveKeepsAscending(s, k);
    forall j ensures j in RemoveAt(s, k) <==> j in s && j != x {
      if j in RemoveAt(s, k) {
        InRemoved(s, k, j);
      }
      if j in s && j != x {
        StillInRemoved(s, k, j);
      }
    }
  }

  /** Position `j` is among the matching positions exactly when it is a position of a matching post. */
  lemma InMatching(ps: seq<PostFields>, query: string, j: int)
    ensures j in MatchingPositions(ps, query) <==> 0 <= j < |ps| && Matches(ps[j], query)
  {
    MatchingPositionsSpec(ps, query);
  }

  /** The matching positions of the list with post `i` deleted, described from those of the whole list. */
  lemma MatchingAfterRemove(ps: seq<PostFields>, query: string, i: nat)
    requires i < |ps|
    ensures var m := MatchingPositions(ps, query);
            forall j: nat :: j in MatchingPositions(RemoveAt(ps, i), query) <==>
              AfterDelete(m, i, j)
  {
    var r := RemoveAt(ps, i);
    forall j: nat ensures j in MatchingPositions(r, query) <==> AfterDelete(MatchingPositions(ps, query), i, j) {
      InMatching(r, query, j);
      InMatching(ps, query, j);
      InMatching(ps, query, j + 1);
      if j < |r| {
        assert r[j] == ps[if j < i then j else j + 1];
      }
    }
  }

  /** Dropping the one entry `i` and shifting the larger entries down, as `delete_post` does. */
  lemma ShiftAfterRemoveMembers(m: seq<nat>, i: nat)
    requires StrictlyAscending(m) && i in m
    ensures var sh := ShiftDown(RemoveAt(m, IndexOf(m, i)), i);
            && StrictlyAscending(sh)
            && forall j: nat :: j in sh <==> AfterDelete(m, i, j)
  {
    var r := RemoveAt(m, IndexOf(m, i));
    RemoveMember(m, i);
    ShiftDownMembers(r, i);
  }

  /** Two strictly ascending lists that both hold what is left of `m` after deleting `i` are the same list. */
  lemma SameAfterDelete(s: seq<nat>, t: seq<nat>, m: seq<nat>, i: nat)
    requires StrictlyAscending(s) && forall j: nat :: j in s <==> AfterDelete(m, i, j)
    requires StrictlyAscending(t) && forall j: nat :: j in t <==> AfterDelete(m, i, j)
    ensures s == t
  {
    forall j: int ensures j in s <==> j in t {
      if j >= 0 {
        assert j in s <==> AfterDelete(m, i, j);
      }
    }
    AscendingUnique(s, t);
  }

  /**
   `delete_post` of a post the view shows: dropping its entry and shifting the
   larger indices down gives exactly the matching positions of the shorter list.
   */
  lemma DeleteShownKeepsMatching(ps: seq<PostFields>, query: string, i: nat)
    requires i < |ps| && Matches(ps[i], query)
    ensures var m := MatchingPositions(ps, query);
            i in m && ShiftDown(RemoveAt(m, IndexOf(m, i)), i) == MatchingPositions(RemoveAt(ps, i), query)
  {
    var m := MatchingPositions(ps, query);
    assert StrictlyAscending(m) && i in m by {
      MatchingPositionsSpec(ps, query);
    }
    var sh := ShiftDown(RemoveAt(m, IndexOf(m, i)), i);
    var mp := MatchingPositions(RemoveAt(ps, i), query);
    assert StrictlyAscending(sh) && forall j: nat :: j in sh <==> AfterDelete(m, i, j) by {
      ShiftAfterRemoveMembers(m, i);
    }
    assert StrictlyAscending(mp) && forall j: nat :: j in mp <==> AfterDelete(m, i, j) by {
      MatchingAfterRemove(ps, query, i);
      MatchingPositionsSpec(RemoveAt(ps, i), query);
    }
    SameAfterDelete(sh, mp, m, i);
  }

  /** After deleting a hidden post, shifting the indices above it down would give the right list. */
  lemma DeleteHiddenNeedsShift(ps: seq<PostFields>, query: string, i: nat)
    requires i < |ps| && !Matches(ps[i], query)
    ensures var m := MatchingPositions(ps, query);
            i !in m && ShiftDown(m, i) == MatchingPositions(RemoveAt(ps, i), query)
  {
    var m := MatchingPositions(ps, query);
    assert StrictlyAscending(m) && i !in m by {
      MatchingPositionsSpec(ps, query);
    }
    var sh := ShiftDown(m, i);
    var mp := MatchingPositions(RemoveAt(ps, i), query);
    assert StrictlyAscending(sh) && forall j: nat :: j in sh <==> AfterDelete(m, i, j) by {
      ShiftDownMembers(m, i);
    }
    assert StrictlyAscending(mp) && forall j: nat :: j in mp <==> AfterDelete(m, i, j) by {
      MatchingAfterRemove(ps, query, i);
      MatchingPositionsSpec(RemoveAt(ps, i), query);
    }
    SameAfterDelete(sh, mp, m, i);
  }

  /** Shifting leaves an ascending list without `i` alone exactly when all its members lie below `i`. */
  lemma ShiftDownUnchangedIff(s: seq<nat>, i: nat)
    requires StrictlyAscending(s) && i !in s
    ensures ShiftDown(s, i) == s <==> forall k :: 0 <= k < |s| ==> s[k] < i
  {
    if ShiftDown(s, i) == s {
      forall k | 0 <= k < |s| ensures s[k] < i {
        assert ShiftDown(s, i)[k] == s[k];
        assert s[k] != i;
      }
    }
  }

  /**
   `delete_post` of a post the view hides leaves the index list as it was,
   and that is right exactly when no shown index lies above the deleted one.
   */
  lemma DeleteHiddenKeepsMatchingIff(ps: seq<PostFields>, query: string, i: nat)
    requires i < |ps| && !Matches(ps[i], query)
    ensures var m := MatchingPositions(ps, query);
            i !in m
            && (m == MatchingPositions(RemoveAt(ps, i), query) <==> forall k :: 0 <= k < |m| ==> m[k] < i)
  {
    var m := MatchingPositions(ps, query);
    MatchingPositionsSpec(ps, query);
    DeleteHiddenNeedsShift(ps, query, i);
    ShiftDownUnchangedIff(m, i);
  }

  /** Which positions match after post `i` is replaced by `p`. */
  lemma MatchingAfterUpdate(ps: seq<PostFields>, query: string, i: nat, p: PostFields)
    requires i < |ps|
    ensures var m := MatchingPositions(ps, query);
            forall j: int :: j in MatchingPositions(ps[i := p], query) <==>
              (j in m && j != i) || (j == i && Matches(p, query))
  {
    MatchingPositionsSpec(ps, query);
    MatchingPositionsSpec(ps[i := p], query);
  }

  /** An edited post that the view showed and that still matches: the index list stays right. */
  lemma EditShownStillMatching(ps: seq<PostFields>, query: string, i: nat, p: PostFields)
    requires i < |ps| && Matches(ps[i], query) && Matches(p, query)
    ensures MatchingPositions(ps[i := p], query) == MatchingPositions(ps, query)
  {
    var m := MatchingPositions(ps, query);
    MatchingPositionsSpec(ps, query);
    MatchingAfterUpdate(ps, query, i, p);
    IsMatchingPositions(m, ps[i := p], query);
  }

  /** An edited post that the view showed and that no longer matches: keeping its index is wrong. */
  lemma EditShownNoLongerMatching(ps: seq<PostFields>, query: string, i: nat, p: PostFields)
    requires i < |ps| && Matches(ps[i], query) && !Matches(p, query)
    ensures var m := MatchingPositions(ps, query);
            i in m && i !in MatchingPositions(ps[i := p], query)
  {
    MatchingPositionsSpec(ps, query);
    MatchingAfterUpdate(ps, query, i, p);
  }

  /** An edited post that the view hid and that still does not match: the index list stays right. */
  lemma EditHiddenStillHidden(ps: seq<PostFields>, query: string, i: nat, p: PostFields)
    requires i < |ps| && !Matches(ps[i], query) && !Matches(p, query)
    ensures MatchingPositions(ps[i := p], query) == MatchingPositions(ps, query)
  {
    var m := MatchingPositions(ps, query);
    MatchingPositionsSpec(ps, query);
    MatchingAfterUpdate(ps, query, i, p);
    IsMatchingPositions(m, ps[i := p], query);
  }

  /**
   An edited post that the view hid and that now matches is appended at the
   end: the list has the right members, and it is the right list exactly when
   every shown index lies below the edited one.
   */
  lemma EditHiddenNowMatchingIff(ps: seq<PostFields>, query: string, i: nat, p: PostFields)
    requires i < |ps| && !Matches(ps[i], query) && Matches(p, query)
    ensures var m := MatchingPositions(ps, query);
            && (forall j: int :: j in m + [i] <==> j in MatchingPositions(ps[i := p], query))
            && (m + [i] == MatchingPositions(ps[i := p], query) <==> forall k :: 0 <= k < |m| ==> m[k] < i)
  {
    var m := MatchingPositions(ps, query);
    MatchingPositionsSpec(ps, query);
    MatchingAfterUpdate(ps, query, i, p);
    MatchingPositionsSpec(ps[i := p], query);
    if forall k :: 0 <= k < |m| ==> m[k] < i {
      IsMatchingPositions(m + [i], ps[i := p], query);
    } else {
      var k :| 0 <= k < |m| && m[k] >= i;
      assert (m + [i])[k] >= (m + [i])[|m|];
      assert !StrictlyAscending(m + [i]);
    }
  }

  /**
   What `delete_post` does to a correct index list `m`: for a shown post,
   dropping its entry and shifting gives the right list; for a hidden post the
   list is kept, which is right exactly when no shown index lies above it.
   */
  lemma DeleteKeepsMatching(ps: seq<PostFields>, query: string, i: nat)
    requires i < |ps|
    ensures var m := MatchingPositions(ps, query);
            var after := MatchingPositions(RemoveAt(ps, i), query);
            && (i in m ==> ShiftDown(RemoveAt(m, IndexOf(m, i)), i) == after)
            && (i !in m ==> (m == after <==> forall k :: 0 <= k < |m| ==> m[k] < i))
  {
    MatchingPositionsSpec(ps, query);
    if Matches(ps[i], query) {
      DeleteShownKeepsMatching(ps, query, i);
    } else {
      DeleteHiddenKeepsMatchingIff(ps, query, i);
    }
  }

  /**
   What `edit_post` does to a correct index list `m` when post `i` becomes `p`:
   a shown post keeps its entry, which is right exactly when it still matches;
   a hidden post that now matches is appended, which is right exactly when
   every shown index lies below it; a hidden post that still does not match
   leaves the list right.
   */
  lemma EditKeepsMatching(ps: seq<PostFields>, query: string, i: nat, p: PostFields)
    requires i < |ps|
    ensures var m := MatchingPositions(ps, query);
            var after := MatchingPositions(ps[i := p], query);
            && (i in m && Matches(p, query) ==> after == m)
            && (i in m && !Matches(p, query) ==> after != m)
            && (i !in m && !Matches(p, query) ==> after == m)
            && (i !in m && Matches(p, query) ==> (m + [i] == after <==> forall k :: 0 <= k < |m| ==> m[k] < i))
  {
    MatchingPositionsSpec(ps, query);
    if Matches(ps[i], query) {
      if Matches(p, query) {
        EditShownStillMatching(ps, query, i, p);
      } else {
        EditShownNoLongerMatching(ps, query, i, p);
      }
    } else {
      if Matches(p, query) {
        EditHiddenNowMatchingIff(ps, query, i, p);
      } else {
        EditHiddenStillHidden(ps, query, i, p);
      }
    }
  }

  // Concrete instances of the three ways the view goes wrong.

  /** A post with the same text in its title and content, no category and no tags. */
  function Note(text: string): PostFields {
    PostFields(text, text, "", "", [])
  }

  /** Which of the two notes the query "b" matches. */
  lemma NotesMatching()
    ensures !Matches(Note("a"), "b") && Matches(Note("b"), "b")
  {
    assert Lower("a") == "a" && Lower("b") == "b" && Lower("") == "";
    assert !Contains("a", "b") && !Contains("", "b") && Contains("b", "b");
  }

  /** Posts "a", "b" under the query "b": the view holds index 1; after deleting the hidden post 0 the right index is 0. */
  lemma StaleIndexAfterHiddenDelete()
    ensures MatchingPositions([Note("a"), Note("b")], "b") == [1]
    ensures MatchingPositions(RemoveAt([Note("a"), Note("b")], 0), "b") == [0]
  {
    NotesMatching();
    var ps := [Note("a"), Note("b")];
    assert ps[..1] == [Note("a")];
    assert [Note("a")][..0] == [];
    assert RemoveAt(ps, 0) == [Note("b")];
    assert [Note("b")][..0] == [];
  }

  /** A post titled "t" whose content is `content`. */
  function Titled(content: string): PostFields {
    PostFields("t", content, "", "", [])
  }

  /** Which of the two titled posts the query "a" matches. */
  lemma TitledMatching()
    ensures Matches(Titled("a"), "a") && !Matches(Titled("x"), "a")
  {
    assert Lower("a") == "a" && Lower("t") == "t" && Lower("x") == "x" && Lower("") == "";
    assert Contains("a", "a") && !Contains("t", "a") && !Contains("x", "a") && !Contains("", "a");
  }

  /** Post 0 shown for the query "a" and edited to content "x": its index stays, the right list is empty. */
  lemma ShownPostEditedAway()
    ensures MatchingPositions([Titled("a")], "a") == [0]
    ensures MatchingPositions([Titled("x")], "a") == []
  {
    TitledMatching();
    assert [Titled("a")][..0] == [];
    assert [Titled("x")][..0] == [];
  }

  /** Post 0 hidden for the query "a" and edited to content "a": the view becomes [1, 0], the right list is [0, 1]. */
  lemma HiddenPostEditedOutOfOrder()
    ensures MatchingPositions([Titled("x"), Titled("a")], "a") == [1]
    ensures MatchingPositions([Titled("a"), Titled("a")], "a") == [0, 1]
    ensures MatchingPositions([Titled("x"), Titled("a")], "a") + [0] != MatchingPositions([Titled("a"), Titled("a")], "a")
  {
    TitledMatching();
    assert [Titled("x"), Titled("a")][..1] == [Titled("x")];
    assert [Titled("a"), Titled("a")][..1] == [Titled("a")];
    assert [Titled("x")][..0] == [];
    assert [Titled("a")][..0] == [];
    assert ([1] + [0])[0] == 1;
  }
}
