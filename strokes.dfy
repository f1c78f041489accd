/**
 * Strokes and the list operations that both the client store and the relay
 * apply to ordered stroke collections: lookup by id (`find`), removal by id
 * (`filter`), append-unless-present, and the left fold of append-unless-present
 * that a snapshot replay performs.
 */
module Strokes {

  datatype Option<T> = None | Some(value: T)

  /** JavaScript truthiness of an optional string: present and non-empty, as
      `if (sessionId)` and `if (!strokeId) return;` test it. */
  predicate Truthy(q: Option<string>)
  {
    q.Some? && q.value != ""
  }

  /** One committed freehand mark. Only `id` is ever inspected by the core;
      the other fields are carried along unchanged. */
  datatype Stroke = Stroke(
    id: string,
    points: seq<real>,
    color: string,
    size: real,
    erasing: bool,
    userId: Option<string>)

  /** Whether some stroke of `s` carries `id` (the truthiness of
      `s.find(x => x.id === id)`). */
  function HasId(s: seq<Stroke>, id: string): (b: bool)
    ensures b <==> exists x :: x in s && x.id == id
  {
    if s == [] then false
    else s[0].id == id || HasId(s[1..], id)
  }

  /** `s.find(x => x.id === id)`: the first stroke carrying `id`, if any. */
  function Find(s: seq<Stroke>, id: string): (r: Option<Stroke>)
    ensures r.Some? <==> HasId(s, id)
    ensures r.Some? ==> r.value in s && r.value.id == id
    ensures r.Some? ==> exists k :: 0 <= k < |s| && s[k] == r.value && forall j :: 0 <= j < k ==> s[j].id != id
  {
    if s == [] then None
    else if s[0].id == id then Some(s[0])
    else Find(s[1..], id)
  }

  /** `s.filter(x => x.id !== id)`. */
  function Without(s: seq<Stroke>, id: string): (r: seq<Stroke>)
    ensures forall x :: x in r <==> x in s && x.id != id
    ensures !HasId(r, id)
    ensures |r| <= |s|
  {
    if s == [] then []
    else if s[0].id == id then Without(s[1..], id)
    else [s[0]] + Without(s[1..], id)
  }

  /** `[...s, x]` unless some stroke of `s` already carries `x.id`. */
  function AppendIfAbsent(s: seq<Stroke>, x: Stroke): (r: seq<Stroke>)
    ensures HasId(r, x.id)
    ensures s <= r && |r| <= |s| + 1
    ensures |r| == |s| + 1 <==> !HasId(s, x.id)
    ensures |r| == |s| + 1 ==> r[|s|] == x
  {
    if HasId(s, x.id) then s else s + [x]
  }

  /** No two strokes of `s` share an id. */
  predicate UniqueIds(s: seq<Stroke>)
  {
    forall i, j :: 0 <= i < j < |s| ==> s[i].id != s[j].id
  }

  /** Appending the strokes of `s` one at a time, in order, each unless its id
      is already present: what replaying a snapshot into an empty list yields. */
  function Dedup(s: seq<Stroke>): (r: seq<Stroke>)
    ensures UniqueIds(r)
    ensures forall x :: x in r ==> x in s
    ensures forall y :: y in s ==> HasId(r, y.id)
  {
    if s == [] then []
    else
      var d := Dedup(s[..|s| - 1]);
      AppendIfAbsentKeepsUnique(d, s[|s| - 1]);
      AppendIfAbsent(d, s[|s| - 1])
  }

  /** Appending unless present keeps a list free of duplicate ids. */
  lemma AppendIfAbsentKeepsUnique(s: seq<Stroke>, x: Stroke)
    requires UniqueIds(s)
    ensures UniqueIds(AppendIfAbsent(s, x))
  {
  }

  /** Appending a stroke whose id is already present is the identity. */
  lemma AppendIfAbsentIdempotent(s: seq<Stroke>, x: Stroke)
    ensures AppendIfAbsent(AppendIfAbsent(s, x), x) == AppendIfAbsent(s, x)
  {
  }

  /** Filtering distributes over concatenation, so every kept stroke keeps its
      place relative to the other kept strokes. */
  lemma {:induction false} WithoutConcat(a: seq<Stroke>, b: seq<Stroke>, id: string)
    ensures Without(a + b, id) == Without(a, id) + Without(b, id)
  {
    if a == [] {
      assert a + b == b;
    } else {
      assert (a + b)[1..] == a[1..] + b;
      WithoutConcat(a[1..], b, id);
    }
  }

  /** Removing an id that is not present changes nothing. */
  lemma {:induction false} WithoutAbsent(s: seq<Stroke>, id: string)
    requires !HasId(s, id)
    ensures Without(s, id) == s
  {
    if s != [] {
      WithoutAbsent(s[1..], id);
      assert [s[0]] + s[1..] == s;
    }
  }

  /** Removing the same id twice is removing it once. */
  lemma WithoutIdempotent(s: seq<Stroke>, id: string)
    ensures Without(Without(s, id), id) == Without(s, id)
  {
  }

  /** Filtering keeps a list free of duplicate ids. */
  lemma {:induction false} WithoutKeepsUnique(s: seq<Stroke>, id: string)
    requires UniqueIds(s)
    ensures UniqueIds(Without(s, id))
  {
    if s != [] {
      WithoutKeepsUnique(s[1..], id);
      if s[0].id != id {
        var t := Without(s[1..], id);
        var r := [s[0]] + t;
        forall i, j | 0 <= i < j < |r| ensures r[i].id != r[j].id {
          if i == 0 {
            assert r[j] in s[1..];
            var k :| 0 <= k < |s[1..]| && s[1..][k] == r[j];
            assert s[k + 1] == r[j];
          } else {
            assert r[i] == t[i - 1] && r[j] == t[j - 1];
          }
        }
      }
    }
  }

  /** Replaying a list that already has unique ids reproduces it exactly. */
  lemma {:induction false} DedupOfUnique(s: seq<Stroke>)
    requires UniqueIds(s)
    ensures Dedup(s) == s
  {
    if s != [] {
      var p := s[..|s| - 1];
      var x := s[|s| - 1];
      assert UniqueIds(p);
      DedupOfUnique(p);
      assert p + [x] == s;
    }
  }
}
