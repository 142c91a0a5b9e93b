/**
 * The selection step of `ask_question` in backend/api.py: given the row of
 * distances and the row of labels that the index search returns for the
 * question, pick the nearest stored section, or report that there is none.
 * Distances are values of an abstract totally ordered type, topped by the
 * infinity the search uses for "no result".
 */
module Retrieval {
  import opened Wrappers
  import opened Segmenter

  /** A distance reported by the search: a finite value, or infinity. */
  datatype Distance<T> = Finite(value: T) | Infinity

  /** `lt` is a strict total order. */
  ghost predicate StrictTotalOrder<T(!new)>(lt: (T, T) -> bool) {
    && (forall x :: !lt(x, x))
    && (forall x, y, z :: lt(x, y) && lt(y, z) ==> lt(x, z))
    && (forall x, y :: x != y ==> lt(x, y) || lt(y, x))
  }

  /** `a < b` on distances; infinity lies above every finite distance. */
  predicate Below<T>(lt: (T, T) -> bool, a: Distance<T>, b: Distance<T>) {
    match a
    case Infinity => false
    case Finite(x) => b.Infinity? || lt(x, b.value)
  }

  /** Adding infinity on top keeps the order strict and total. */
  lemma BelowIsStrictTotalOrder<T(!new)>(lt: (T, T) -> bool)
    requires StrictTotalOrder(lt)
    ensures forall a :: !Below(lt, a, a)
    ensures forall a, b, c :: Below(lt, a, b) && Below(lt, b, c) ==> Below(lt, a, c)
    ensures forall a: Distance<T>, b :: a != b ==> Below(lt, a, b) || Below(lt, b, a)
  {
    forall a: Distance<T>, b | a != b ensures Below(lt, a, b) || Below(lt, b, a) {
      if a.Finite? && b.Finite? {
        assert a.value != b.value;
      }
    }
  }

  /** `p` is the first position holding the smallest distance of `row`. */
  ghost predicate IsFirstMinimum<T>(lt: (T, T) -> bool, row: seq<Distance<T>>, p: int) {
    && 0 <= p < |row|
    && (forall j :: 0 <= j < |row| ==> !Below(lt, row[j], row[p]))
    && (forall j :: 0 <= j < p ==> Below(lt, row[p], row[j]))
  }

  /** `np.argmin(row)`: the first position of the minimum. */
  function ArgMin<T(!new)>(lt: (T, T) -> bool, row: seq<Distance<T>>): (best: nat)
    requires StrictTotalOrder(lt)
    requires |row| > 0
    ensures best < |row|
    ensures forall j :: 0 <= j < |row| ==> !Below(lt, row[j], row[best])
    ensures forall j :: 0 <= j < best ==> Below(lt, row[best], row[j])
  {
    if |row| == 1 then 0
    else
      var k := ArgMin(lt, row[..|row| - 1]);
      BelowIsStrictTotalOrder(lt);
      assert forall j :: 0 <= j < |row| - 1 ==> row[..|row| - 1][j] == row[j];
      if Below(lt, row[|row| - 1], row[k]) then |row| - 1 else k
  }

  /** The first minimum is unique: `ArgMin` is the one and only position that is one. */
  lemma ArgMinIsTheFirstMinimum<T(!new)>(lt: (T, T) -> bool, row: seq<Distance<T>>, p: int)
    requires StrictTotalOrder(lt)
    requires |row| > 0
    ensures IsFirstMinimum(lt, row, p) <==> p == ArgMin(lt, row)
  {
  }

  /** Every first minimum is the one `ArgMin` finds. */
  lemma FirstMinimumIsArgMin<T(!new)>(lt: (T, T) -> bool, row: seq<Distance<T>>)
    requires StrictTotalOrder(lt)
    requires |row| > 0
    ensures forall p :: IsFirstMinimum(lt, row, p) ==> p == ArgMin(lt, row)
  {
    forall p | IsFirstMinimum(lt, row, p) ensures p == ArgMin(lt, row) {
      ArgMinIsTheFirstMinimum(lt, row, p);
    }
  }

  /** Over a row sorted by increasing distance, `argmin` is position 0. */
  lemma SortedRowArgMinIsFirst<T(!new)>(lt: (T, T) -> bool, row: seq<Distance<T>>)
    requires StrictTotalOrder(lt)
    requires |row| > 0
    requires forall i, j :: 0 <= i < j < |row| ==> !Below(lt, row[j], row[i])
    ensures ArgMin(lt, row) == 0
  {
  }

  /** Why a question gets no answer: HTTP 404, or HTTP 500 for a raised `IndexError`. */
  datatype AskError = NotFound | InternalError

  /** The JSON reply: the question and the matched section. */
  datatype Response = Response(question: string, context: Section)

  /** Python list indexing `xs[i]`: a negative `i` counts from the end; out of range raises. */
  function PyIndex<X>(xs: seq<X>, i: int): (r: Option<X>)
    ensures r.Some? <==> -|xs| <= i < |xs|
    ensures r.Some? ==> r.value in xs
  {
    if 0 <= i < |xs| then Some(xs[i])
    else if -|xs| <= i < 0 then Some(xs[|xs| + i])
    else None
  }

  /** A valid index picks the element at `i` modulo the length, as Python does. */
  lemma PyIndexIsModular<X>(xs: seq<X>, i: int)
    requires -|xs| <= i < |xs|
    ensures PyIndex(xs, i) == Some(xs[i % |xs|])
  {
    var n := |xs|;
    if i < 0 {
      assert i == (-1) * n + (n + i);
      assert i % n == n + i;
    }
  }

  /**
   * `ask_question` from the search result on: `D[0][0]` must be below
   * infinity, then the section at `I[0][np.argmin(D[0])]` is returned.
   */
  function AskQuestion<T(!new)>(lt: (T, T) -> bool, question: string, distances: seq<Distance<T>>,
                                labels: seq<int>, sections: seq<Section>): (r: Result<Response, AskError>)
    requires StrictTotalOrder(lt)
    ensures r == Err(NotFound) <==> |distances| > 0 && distances[0] == Infinity
    ensures r.Ok? ==> r.value.question == question && r.value.context in sections
    ensures r.Ok? ==> exists p :: IsFirstMinimum(lt, distances, p) && p < |labels|
                        && PyIndex(sections, labels[p]) == Some(r.value.context)
    ensures r.Ok? <==> && |distances| > 0 && distances[0].Finite?
                       && exists p :: IsFirstMinimum(lt, distances, p) && p < |labels|
                                      && PyIndex(sections, labels[p]).Some?
  {
    if |distances| == 0 then Err(InternalError)
    else
      var bestDistance := distances[0];
      if Below(lt, bestDistance, Infinity) then
        var bestIdx := ArgMin(lt, distances);
        assert IsFirstMinimum(lt, distances, bestIdx);
        FirstMinimumIsArgMin(lt, distances);
        if bestIdx >= |labels| then Err(InternalError)
        else
          match PyIndex(sections, labels[bestIdx])
          case Some(context) => Ok(Response(question, context))
          case None => Err(InternalError)
      else Err(NotFound)
  }

  /**
   * When `D[0][0]` is finite, the chosen distance is finite and no larger
   * than `D[0][0]`.
   */
  lemma SelectedDistanceAtMostFirst<T(!new)>(lt: (T, T) -> bool, row: seq<Distance<T>>)
    requires StrictTotalOrder(lt)
    requires |row| > 0 && row[0].Finite?
    ensures row[ArgMin(lt, row)].Finite?
    ensures !Below(lt, row[0], row[ArgMin(lt, row)])
  {
  }

  /**
   * Over a sorted row, the answer is the section labelled at position 0, the
   * position `best_distance = D[0][0]` reads.
   */
  lemma SortedRowAnswersFirstLabel<T(!new)>(lt: (T, T) -> bool, question: string, distances: seq<Distance<T>>,
                                            labels: seq<int>, sections: seq<Section>, section: Section)
    requires StrictTotalOrder(lt)
    requires |distances| > 0 && distances[0].Finite?
    requires forall i, j :: 0 <= i < j < |distances| ==> !Below(lt, distances[j], distances[i])
    requires |labels| > 0 && PyIndex(sections, labels[0]) == Some(section)
    ensures AskQuestion(lt, question, distances, labels, sections) == Ok(Response(question, section))
  {
    SortedRowArgMinIsFirst(lt, distances);
  }
}
