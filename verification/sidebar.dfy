/**
 The Sidebar's client-side search and its one-line description preview. The
 search keeps, in order, the todos whose lower-cased title or lower-cased
 description contains the lower-cased search term (`String.prototype.includes`).
 */
module Sidebar {
  import opened Todos

  /** Length after which the preview cuts the description. */
  const PreviewLength: nat := 40
  const Ellipsis: string := "..."

  /** Lower-case mapping on ASCII letters; every other character is kept. */
  function LowerChar(c: char): char {
    if 'A' <= c <= 'Z' then (c as int - 'A' as int + 'a' as int) as char else c
  }

  function Lower(s: string): (r: string)
    ensures |r| == |s|
  {
    seq(|s|, i requires 0 <= i < |s| => LowerChar(s[i]))
  }

  /** `needle` occurs in `hay` starting at position `i`. */
  ghost predicate OccursAt(hay: string, needle: string, i: int) {
    0 <= i && i + |needle| <= |hay| && hay[i..i + |needle|] == needle
  }

  /** `hay.includes(needle)`: tries each start position from the left. */
  predicate Includes(hay: string, needle: string)
    decreases |hay|
  {
    if |needle| > |hay| then false
    else if needle == hay[..|needle|] then true
    else Includes(hay[1..], needle)
  }

  /** `Includes` holds exactly when the needle occurs somewhere in the haystack. */
  lemma {:induction false} IncludesIffOccurs(hay: string, needle: string)
    ensures Includes(hay, needle) <==> exists i :: OccursAt(hay, needle, i)
    decreases |hay|
  {
    if |needle| > |hay| {
      assert forall i :: !OccursAt(hay, needle, i);
    } else if needle == hay[..|needle|] {
      assert OccursAt(hay, needle, 0);
    } else {
      IncludesIffOccurs(hay[1..], needle);
      if Includes(hay[1..], needle) {
        var i :| OccursAt(hay[1..], needle, i);
        assert hay[1..][i..i + |needle|] == hay[i + 1..i + 1 + |needle|];
        assert OccursAt(hay, needle, i + 1);
      } else {
        forall i | OccursAt(hay, needle, i)
          ensures false
        {
          if i > 0 {
            assert hay[1..][i - 1..i - 1 + |needle|] == hay[i..i + |needle|];
            assert OccursAt(hay[1..], needle, i - 1);
          }
        }
      }
    }
  }

  /** The predicate of `todos.filter(...)`: a title match or a description match. */
  predicate Matches(t: Todo, term: string) {
    Includes(Lower(t.title), Lower(term)) || Includes(Lower(t.description), Lower(term))
  }

  /** `filteredTodos`: the todos that match the search term, in their original order. */
  function Filter(todos: seq<Todo>, term: string): (r: seq<Todo>)
    ensures |r| <= |todos|
    ensures forall t :: t in r ==> t in todos && Matches(t, term)
    ensures forall t :: t in todos && Matches(t, term) ==> t in r
  {
    if |todos| == 0 then []
    else (if Matches(todos[0], term) then [todos[0]] else []) + Filter(todos[1..], term)
  }

  /** Every position moved one place to the right. */
  function Shift(ps: seq<nat>): (r: seq<nat>)
    ensures |r| == |ps|
    ensures forall k :: 0 <= k < |ps| ==> r[k] == ps[k] + 1
  {
    seq(|ps|, k requires 0 <= k < |ps| => ps[k] + 1)
  }

  /** Positions of the matching todos, ascending. */
  function KeptPositions(todos: seq<Todo>, term: string): seq<nat>
  {
    if |todos| == 0 then []
    else
      var rest := Shift(KeptPositions(todos[1..], term));
      if Matches(todos[0], term) then [0] + rest else rest
  }

  /** The kept positions are exactly the positions of matching todos. */
  lemma {:induction false} KeptPositionsExact(todos: seq<Todo>, term: string)
    ensures forall k :: 0 <= k < |KeptPositions(todos, term)| ==> KeptPositions(todos, term)[k] < |todos|
    ensures forall i :: 0 <= i < |todos| ==> (i in KeptPositions(todos, term) <==> Matches(todos[i], term))
  {
    if |todos| > 0 {
      KeptPositionsExact(todos[1..], term);
      var tail := KeptPositions(todos[1..], term);
      var rest := Shift(tail);
      forall i | 0 <= i < |todos|
        ensures i in KeptPositions(todos, term) <==> Matches(todos[i], term)
      {
        if i > 0 {
          assert todos[1..][i - 1] == todos[i];
          if i - 1 in tail {
            var k :| 0 <= k < |tail| && tail[k] == i - 1;
            assert rest[k] == i;
          }
          if i in rest {
            var k :| 0 <= k < |rest| && rest[k] == i;
            assert tail[k] == i - 1;
          }
        }
      }
    }
  }

  /** The kept positions are strictly increasing. */
  lemma {:induction false} KeptPositionsAscending(todos: seq<Todo>, term: string)
    ensures forall k, l :: 0 <= k < l < |KeptPositions(todos, term)| ==>
              KeptPositions(todos, term)[k] < KeptPositions(todos, term)[l]
  {
    if |todos| > 0 {
      KeptPositionsAscending(todos[1..], term);
    }
  }

  /** The `k`-th filtered todo is the todo at the `k`-th kept position. */
  lemma {:induction false} FilterAtKeptPositions(todos: seq<Todo>, term: string)
    ensures |KeptPositions(todos, term)| == |Filter(todos, term)|
    ensures forall k :: 0 <= k < |Filter(todos, term)| ==>
              KeptPositions(todos, term)[k] < |todos| && Filter(todos, term)[k] == todos[KeptPositions(todos, term)[k]]
  {
    KeptPositionsExact(todos, term);
    if |todos| > 0 {
      FilterAtKeptPositions(todos[1..], term);
      var r := Filter(todos, term);
      var tail := Filter(todos[1..], term);
      var ps := KeptPositions(todos, term);
      var shifted := Shift(KeptPositions(todos[1..], term));
      forall k | 0 <= k < |r|
        ensures r[k] == todos[ps[k]]
      {
        if Matches(todos[0], term) {
          if k > 0 {
            assert r[k] == tail[k - 1] && ps[k] == shifted[k - 1];
          }
        } else {
          assert r[k] == tail[k] && ps[k] == shifted[k];
        }
      }
    }
  }

  /**
   The filtered list is exactly the todos at the matching positions, taken in
   increasing order of position: a subsequence that keeps the original order
   and leaves out precisely the non-matching todos.
   */
  lemma FilterKeepsOrder(todos: seq<Todo>, term: string)
    ensures var ps := KeptPositions(todos, term);
            var r := Filter(todos, term);
            && |ps| == |r|
            && (forall k :: 0 <= k < |ps| ==> ps[k] < |todos| && r[k] == todos[ps[k]])
            && (forall k, l :: 0 <= k < l < |ps| ==> ps[k] < ps[l])
            && (forall i :: 0 <= i < |todos| ==> (i in ps <==> Matches(todos[i], term)))
  {
    KeptPositionsExact(todos, term);
    KeptPositionsAscending(todos, term);
    FilterAtKeptPositions(todos, term);
  }

  /** Soundness: every listed todo contains the search term in its title or description. */
  lemma FilterSound(todos: seq<Todo>, term: string, t: Todo)
    requires t in Filter(todos, term)
    ensures (exists i :: OccursAt(Lower(t.title), Lower(term), i))
            || (exists i :: OccursAt(Lower(t.description), Lower(term), i))
  {
    IncludesIffOccurs(Lower(t.title), Lower(term));
    IncludesIffOccurs(Lower(t.description), Lower(term));
  }

  /** Completeness: a todo containing the search term in its title or description is listed. */
  lemma FilterComplete(todos: seq<Todo>, term: string, t: Todo, i: int)
    requires t in todos
    requires OccursAt(Lower(t.title), Lower(term), i) || OccursAt(Lower(t.description), Lower(term), i)
    ensures t in Filter(todos, term)
  {
    IncludesIffOccurs(Lower(t.title), Lower(term));
    IncludesIffOccurs(Lower(t.description), Lower(term));
  }

  /** With an empty search box every todo is listed. */
  lemma {:induction false} EmptyTermKeepsAll(todos: seq<Todo>)
    ensures Filter(todos, "") == todos
  {
    if |todos| > 0 {
      EmptyTermKeepsAll(todos[1..]);
      assert Lower("") == "";
      assert Includes(Lower(todos[0].title), "");
      assert [todos[0]] + todos[1..] == todos;
    }
  }

  /** The description line of a list entry: at most 40 characters, then `...` when cut. */
  function Preview(description: string): (r: string)
    ensures |r| <= PreviewLength + |Ellipsis|
    ensures |description| <= PreviewLength ==> r == description
    ensures |description| > PreviewLength ==>
              |r| == PreviewLength + |Ellipsis|
              && r[..PreviewLength] == description[..PreviewLength]
              && r[PreviewLength..] == Ellipsis
  {
    if |description| > PreviewLength then description[..PreviewLength] + Ellipsis else description
  }

  /** Previewing a preview changes nothing. */
  lemma PreviewIdempotent(description: string)
    ensures Preview(Preview(description)) == Preview(description)
  {
    if |description| > PreviewLength {
      var p := Preview(description);
      assert p[..PreviewLength] == description[..PreviewLength];
    }
  }

}
