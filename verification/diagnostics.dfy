/**
  The records that flow through BugBot's analysis request (BugBot/main.py):
  a raw pylint diagnostic, the per-id group the request builds from them,
  and the explained result it renders and saves to the history.
 */
module Diagnostics {
  import opened Sequences

  datatype Option<T> = None | Some(value: T)

  /**
    One entry of pylint's JSON output, reduced to the three keys the request
    reads.  `message-id` and `message` may be missing; `line` is always there.
   */
  datatype RawDiagnostic = RawDiagnostic(messageId: Option<string>, message: Option<string>, line: int)

  /** A value of `grouped_errors`: the id, the first message seen, every line seen, in order. */
  datatype Group = Group(id: string, message: string, lines: seq<int>)

  /** A `result` dict: what is rendered and appended to the history. */
  datatype Explained = Explained(id: string, message: string, lines: seq<int>, explanation: string)

  /** `IGNORED_PYLINT_IDS`: trailing whitespace, missing final newline, trailing newlines, missing docstrings. */
  const IgnoredPylintIds: set<string> := {"C0303", "C0304", "C0305", "C0114", "C0116"}

  /** `error.get("message-id", "")` */
  function IdOf(d: RawDiagnostic): string {
    match d.messageId
    case None => ""
    case Some(id) => id
  }

  /** `error.get("message", "")` */
  function MessageOf(d: RawDiagnostic): string {
    match d.message
    case None => ""
    case Some(m) => m
  }

  // ---------------------------------------------------------------------------
  // `sorted(set(lines))`

  predicate StrictlyAscending(s: seq<int>) {
    forall i, j :: 0 <= i < j < |s| ==> s[i] < s[j]
  }

  /** Puts `x` into its place in an ascending sequence, unless it is already there. */
  function Insert(x: int, s: seq<int>): (r: seq<int>)
    requires StrictlyAscending(s)
    ensures StrictlyAscending(r)
    ensures forall y :: y in r <==> y == x || y in s
  {
    if s == [] then [x]
    else if x < s[0] then [x] + s
    else if x == s[0] then s
    else
      var t := Insert(x, s[1..]);
      assert forall y :: y in t ==> s[0] < y;
      ConsAscending(s[0], t);
      [s[0]] + t
  }

  lemma ConsAscending(h: int, t: seq<int>)
    requires StrictlyAscending(t)
    requires forall y :: y in t ==> h < y
    ensures StrictlyAscending([h] + t)
  {
    var s := [h] + t;
    forall i, j | 0 <= i < j < |s| ensures s[i] < s[j] {
      assert s[j] == t[j - 1] && t[j - 1] in t;
      if i > 0 {
        assert s[i] == t[i - 1];
      }
    }
  }

  /** `sorted(set(xs))`: every value of `xs` once, in ascending order. */
  function SortedSet(xs: seq<int>): (r: seq<int>)
    ensures StrictlyAscending(r)
    ensures forall y :: y in r <==> y in xs
  {
    if xs == [] then []
    else Insert(xs[|xs| - 1], SortedSet(xs[..|xs| - 1]))
  }

  /** A strictly ascending sequence is fixed by its elements. */
  lemma {:induction false} AscendingUnique(a: seq<int>, b: seq<int>)
    requires StrictlyAscending(a) && StrictlyAscending(b)
    requires forall y :: y in a <==> y in b
    ensures a == b
    decreases |a|
  {
    EmptyOrHeadIn(a);
    EmptyOrHeadIn(b);
    if a != [] && b != [] {
      // Both heads are the least element of the same set.
      assert a[0] in a && b[0] in b;
      assert a[0] == b[0];
      forall y ensures y in a[1..] <==> y in b[1..] {
        if y in a[1..] {
          assert y in b && y != b[0];
        }
        if y in b[1..] {
          assert y in a && y != a[0];
        }
      }
      AscendingUnique(a[1..], b[1..]);
      assert a == [a[0]] + a[1..] && b == [b[0]] + b[1..];
    }
  }

  /** Normalising twice changes nothing more: `sorted(set(sorted(set(xs)))) == sorted(set(xs))`. */
  lemma SortedSetIdempotent(xs: seq<int>)
    ensures SortedSet(SortedSet(xs)) == SortedSet(xs)
  {
    AscendingUnique(SortedSet(SortedSet(xs)), SortedSet(xs));
  }

  /** The normalised lines depend only on which lines occur, not on their order or repetition. */
  lemma SortedSetOfSameElements(xs: seq<int>, ys: seq<int>)
    requires forall y :: y in xs <==> y in ys
    ensures SortedSet(xs) == SortedSet(ys)
  {
    AscendingUnique(SortedSet(xs), SortedSet(ys));
  }
}
