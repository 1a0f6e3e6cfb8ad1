/**
 * Best-match face recognition (ai/face_recognition.py).
 * Embedding generation (a neural network) and the cosine similarity are not
 * modelled: the query embedding arrives as an Option (None when it could not
 * be generated) and the similarity is an arbitrary function supplied by the caller.
 */
module Recognition {
  import opened Wrappers
  import opened Ledger

  /** A recognised identity: (student_id, name, aruco_id, similarity). */
  datatype Match = Match(studentId: int, name: string, arucoId: int, similarity: real)

  const DefaultThreshold: real := 0.6

  /** `compare_embeddings`: the similarity of the pair, and whether it reaches the threshold. */
  function CompareEmbeddings(e1: Embedding, e2: Embedding, similarity: (Embedding, Embedding) -> real,
                             threshold: real := DefaultThreshold): (r: (bool, real))
    ensures r.1 == similarity(e1, e2)
    ensures r.0 <==> similarity(e1, e2) >= threshold
  {
    var score := similarity(e1, e2);
    (score >= threshold, score)
  }

  /** The match `recognize_face` reports for roster entry i. */
  function MatchOf(row: StudentRow, query: Embedding, similarity: (Embedding, Embedding) -> real): Match {
    Match(row.id, row.name, row.arucoId, similarity(query, row.embedding))
  }

  /**
   * Entry i wins the scan: its score reaches the threshold and is positive,
   * no matching entry scores higher, and every earlier matching entry scores strictly lower.
   */
  ghost predicate Winner(query: Embedding, db: seq<StudentRow>, similarity: (Embedding, Embedding) -> real,
                         threshold: real, i: int)
  {
    0 <= i < |db| &&
    var best := similarity(query, db[i].embedding);
    best >= threshold && best > 0.0 &&
    (forall j :: 0 <= j < |db| && similarity(query, db[j].embedding) >= threshold ==>
       similarity(query, db[j].embedding) <= best) &&
    (forall j :: 0 <= j < i && similarity(query, db[j].embedding) >= threshold ==>
       similarity(query, db[j].embedding) < best)
  }

  /**
   * `recognize_face`: scans the roster keeping the first entry of highest
   * similarity among those reaching the threshold. None stands for the
   * source's (None, None, None, 0.0): no embedding, an empty roster, or no
   * entry scoring at least the threshold and above 0.0.
   */
  method RecognizeFace(query: Option<Embedding>, db: seq<StudentRow>,
                       similarity: (Embedding, Embedding) -> real,
                       threshold: real := DefaultThreshold) returns (r: Option<Match>)
    ensures query.None? ==> r.None?
    ensures r.Some? ==>
              && query.Some?
              && exists i :: Winner(query.value, db, similarity, threshold, i) && r.value == MatchOf(db[i], query.value, similarity)
    ensures query.Some? && r.None? ==>
      forall j :: 0 <= j < |db| ==>
        !(similarity(query.value, db[j].embedding) >= threshold && similarity(query.value, db[j].embedding) > 0.0)
  {
    if query.None? {
      return None;
    }
    var q := query.value;
    var bestMatch: Option<Match> := None;
    var bestSimilarity: real := 0.0;
    ghost var bestIndex := -1;
    for k := 0 to |db|
      invariant bestSimilarity >= 0.0
      invariant forall j :: 0 <= j < k && similarity(q, db[j].embedding) >= threshold ==>
        similarity(q, db[j].embedding) <= bestSimilarity
      invariant bestMatch.None? ==> bestSimilarity == 0.0
      invariant bestMatch.Some? ==>
                  && 0 <= bestIndex < k
                  && bestSimilarity == similarity(q, db[bestIndex].embedding)
                  && bestSimilarity >= threshold && bestSimilarity > 0.0
                  && bestMatch.value == MatchOf(db[bestIndex], q, similarity)
                  && forall j :: 0 <= j < bestIndex && similarity(q, db[j].embedding) >= threshold ==>
                       similarity(q, db[j].embedding) < bestSimilarity
    {
      var row := db[k];
      var compared := CompareEmbeddings(q, row.embedding, similarity, threshold);
      var isMatch, score := compared.0, compared.1;
      if isMatch && score > bestSimilarity {
        bestSimilarity := score;
        bestMatch := Some(Match(row.id, row.name, row.arucoId, score));
        bestIndex := k;
      }
    }
    r := bestMatch;
    if r.Some? {
      assert Winner(q, db, similarity, threshold, bestIndex);
    }
  }
}
