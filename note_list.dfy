/**
 * The list computations of the notes screen: the ordered note list, the
 * in-place revision done by Save when a note is selected, and the removal
 * done by Delete.  Both are pure: they build a new list and never touch the
 * old one.
 */
module NoteList {

  /** Note ids are the millisecond timestamps the app reads when it creates a note. */
  type Id = int

  datatype Note = Note(id: Id, title: string, content: string)

  /** Some note of `s` carries the id `id`. */
  predicate HasId(s: seq<Note>, id: Id) {
    exists i :: 0 <= i < |s| && s[i].id == id
  }

  /** No two notes of `s` share an id. */
  predicate DistinctIds(s: seq<Note>) {
    forall i, j :: 0 <= i < j < |s| ==> s[i].id != s[j].id
  }

  /** `r` is `s` with some notes dropped and the rest kept in their order. */
  predicate IsSubsequence(r: seq<Note>, s: seq<Note>)
    decreases |s|
  {
    if r == [] then true
    else if s == [] then false
    else if r[0] == s[0] then IsSubsequence(r[1..], s[1..])
    else IsSubsequence(r, s[1..])
  }

  /**
   * Save on a selected note: every note whose id is `id` takes the draft
   * title and content and keeps its id; every other note is kept as is.
   */
  function Revise(s: seq<Note>, id: Id, title: string, content: string): (r: seq<Note>)
    ensures |r| == |s|
    ensures forall i :: 0 <= i < |s| ==> r[i].id == s[i].id
    ensures forall i :: 0 <= i < |s| && s[i].id == id ==> r[i].title == title && r[i].content == content
    ensures forall i :: 0 <= i < |s| && s[i].id != id ==> r[i] == s[i]
    ensures !HasId(s, id) ==> r == s
  {
    if s == [] then []
    else
      var head := if s[0].id == id then s[0].(title := title, content := content) else s[0];
      [head] + Revise(s[1..], id, title, content)
  }

  /** Delete: the notes of `s` whose id is not `id`, in their order. */
  function RemoveId(s: seq<Note>, id: Id): (r: seq<Note>)
    ensures |r| <= |s|
    ensures forall n :: n in r <==> n in s && n.id != id
    ensures !HasId(r, id)
    ensures !HasId(s, id) ==> r == s
  {
    if s == [] then []
    else if s[0].id == id then RemoveId(s[1..], id)
    else [s[0]] + RemoveId(s[1..], id)
  }

  /** Revising keeps the set of ids, hence keeps them pairwise distinct. */
  lemma RevisePreservesDistinct(s: seq<Note>, id: Id, title: string, content: string)
    ensures DistinctIds(Revise(s, id, title, content)) <==> DistinctIds(s)
  {
  }

  /**
   * With distinct ids, revising a listed id changes exactly the one note at
   * its position and nothing else.
   */
  lemma ReviseUnique(s: seq<Note>, k: nat, title: string, content: string)
    requires DistinctIds(s) && k < |s|
    ensures Revise(s, s[k].id, title, content) == s[k := Note(s[k].id, title, content)]
  {
  }

  /** Saving the same draft twice on the same note gives the same list as saving it once. */
  lemma ReviseIdempotent(s: seq<Note>, id: Id, title: string, content: string)
    ensures Revise(Revise(s, id, title, content), id, title, content) == Revise(s, id, title, content)
  {
  }

  /** Removal keeps the remaining notes in their original relative order. */
  lemma {:induction false} RemoveIdSubsequence(s: seq<Note>, id: Id)
    ensures IsSubsequence(RemoveId(s, id), s)
  {
    if s != [] {
      var rest := RemoveId(s[1..], id);
      RemoveIdSubsequence(s[1..], id);
      if s[0].id == id {
        // the first kept note is not s[0], so the match starts in the tail
        assert rest != [] ==> rest[0] in rest && rest[0] != s[0];
      } else {
        assert RemoveId(s, id) == [s[0]] + rest;
        assert ([s[0]] + rest)[1..] == rest;
      }
    }
  }

  /** Removal distributes over concatenation: it works note by note. */
  lemma {:induction false} RemoveIdAppend(a: seq<Note>, b: seq<Note>, id: Id)
    ensures RemoveId(a + b, id) == RemoveId(a, id) + RemoveId(b, id)
  {
    if a != [] {
      assert (a + b)[1..] == a[1..] + b;
      RemoveIdAppend(a[1..], b, id);
    } else {
      assert a + b == b;
    }
  }

  /** Deleting twice by the same id gives the same list as deleting once. */
  lemma RemoveIdIdempotent(s: seq<Note>, id: Id)
    ensures RemoveId(RemoveId(s, id), id) == RemoveId(s, id)
  {
  }

  /**
   * With distinct ids, deleting a listed id removes exactly the one note at
   * its position and closes the gap.
   */
  lemma {:induction false} RemoveIdUnique(s: seq<Note>, k: nat)
    requires DistinctIds(s) && k < |s|
    ensures RemoveId(s, s[k].id) == s[..k] + s[k + 1..]
    ensures |RemoveId(s, s[k].id)| == |s| - 1
  {
    var id, pre, post := s[k].id, s[..k], s[k + 1..];
    forall i | 0 <= i < |pre| ensures pre[i].id != id {
      assert pre[i] == s[i];
    }
    forall j | 0 <= j < |post| ensures post[j].id != id {
      assert post[j] == s[k + 1 + j];
    }
    var rest := s[k..];
    assert rest[1..] == post;
    assert RemoveId(rest, id) == post;
    assert s == pre + rest;
    RemoveIdAppend(pre, rest, id);
  }

  /** Removal keeps ids pairwise distinct. */
  lemma {:induction false} RemoveIdPreservesDistinct(s: seq<Note>, id: Id)
    requires DistinctIds(s)
    ensures DistinctIds(RemoveId(s, id))
  {
    if s != [] {
      assert DistinctIds(s[1..]) by {
        forall i, j | 0 <= i < j < |s[1..]| ensures s[1..][i].id != s[1..][j].id {
          assert s[1..][i] == s[i + 1] && s[1..][j] == s[j + 1];
        }
      }
      RemoveIdPreservesDistinct(s[1..], id);
      if s[0].id != id {
        var rest := RemoveId(s[1..], id);
        forall i | 0 <= i < |rest| ensures rest[i].id != s[0].id {
          assert rest[i] in s[1..];
          var j :| 0 <= j < |s[1..]| && s[1..][j] == rest[i];
          assert s[j + 1] == rest[i];
        }
        AppendFrontDistinct(s[0], rest);
      }
    }
  }

  /** Putting a note in front of a list keeps ids distinct when its id is new there. */
  lemma AppendFrontDistinct(n: Note, s: seq<Note>)
    requires DistinctIds(s) && !HasId(s, n.id)
    ensures DistinctIds([n] + s)
  {
    forall i, j | 0 <= i < j < |[n] + s| ensures ([n] + s)[i].id != ([n] + s)[j].id {
      if i == 0 {
        assert ([n] + s)[j] == s[j - 1];
      } else {
        assert ([n] + s)[i] == s[i - 1] && ([n] + s)[j] == s[j - 1];
      }
    }
  }

  /**
   * Appending a note keeps ids pairwise distinct exactly when the list
   * already had distinct ids and the new id is not among them.
   */
  lemma AppendDistinct(s: seq<Note>, n: Note)
    ensures DistinctIds(s + [n]) <==> DistinctIds(s) && !HasId(s, n.id)
  {
    if DistinctIds(s + [n]) {
      forall i, j | 0 <= i < j < |s| ensures s[i].id != s[j].id {
        assert (s + [n])[i] == s[i] && (s + [n])[j] == s[j];
      }
      forall i | 0 <= i < |s| ensures s[i].id != n.id {
        assert (s + [n])[i] == s[i] && (s + [n])[|s|] == n;
      }
    }
  }
}
