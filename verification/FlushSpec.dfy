/** The term and index files that flush writes. */
module FlushSpec {
  import opened IndexTypes
  import opened IndexSpec
  import HitSpec

  /** The runs of the term file lie one behind the other and fill the index file. */
  predicate Laid(terms: seq<Term>, file: seq<Posting>) {
    && (terms != [] ==> terms[0].offset == 0)
    && (forall j, k | 0 <= j < |terms| && k == j + 1 < |terms| ::
          terms[k].offset == terms[j].offset + terms[j].num)
    && |file| == if terms == [] then 0 else terms[|terms| - 1].offset + terms[|terms| - 1].num
  }

  predicate SignsAscend(terms: seq<Term>) {
    forall i, j | 0 <= i < j < |terms| :: terms[i].sign < terms[j].sign
  }

  predicate HasTerm(terms: seq<Term>, s: nat) {
    exists k | 0 <= k < |terms| :: terms[k].sign == s
  }

  /** The term and index files hold exactly the posting lists of `docs`. */
  ghost predicate Flushed(docs: seq<Doc>, terms: seq<Term>, file: seq<Posting>) {
    && SignsAscend(terms) && Laid(terms, file)
    && (forall k | 0 <= k < |terms| ::
          && terms[k].num == |Postings(docs, terms[k].sign)| > 0
          && HitSpec.RunAt(file, terms[k].offset, Postings(docs, terms[k].sign)))
    && (forall s: nat :: HasTerm(terms, s) <==> Occurs(docs, s))
  }

  /** What flush has written once the lists of `signs` are out. */
  ghost predicate Written(docs: seq<Doc>, terms: seq<Term>, file: seq<Posting>, signs: seq<nat>) {
    && |terms| == |signs| && Laid(terms, file)
    && (forall k | 0 <= k < |terms| ::
          && terms[k].sign == signs[k]
          && terms[k].num == |Postings(docs, terms[k].sign)| > 0
          && HitSpec.RunAt(file, terms[k].offset, Postings(docs, terms[k].sign)))
  }

  lemma WrittenNothing(docs: seq<Doc>)
    ensures Written(docs, [], [], [])
  {
  }

  lemma WrittenStep(docs: seq<Doc>, terms: seq<Term>, file: seq<Posting>, signs: seq<nat>, s: nat)
    requires Written(docs, terms, file, signs) && Postings(docs, s) != []
    ensures Written(docs, terms + [Term(s, |file|, |Postings(docs, s)|)], file + Postings(docs, s), signs + [s])
  {
    hide Postings, HitSpec.RunAt;
    var l := Postings(docs, s);
    var terms' := terms + [Term(s, |file|, |l|)];
    forall k | 0 <= k < |terms'|
      ensures HitSpec.RunAt(file + l, terms'[k].offset, Postings(docs, terms'[k].sign))
    {
      HitSpec.RunAtConcat(file, l, terms'[k].offset, Postings(docs, terms'[k].sign));
      if k < |terms| {
        assert terms'[k] == terms[k];
      }
    }
  }

  lemma WrittenAll(docs: seq<Doc>, terms: seq<Term>, file: seq<Posting>, signs: seq<nat>)
    requires Written(docs, terms, file, signs)
    requires forall i, j | 0 <= i < j < |signs| :: signs[i] < signs[j]
    requires forall s: nat :: s in signs <==> Postings(docs, s) != []
    ensures Flushed(docs, terms, file)
  {
    hide Postings, HitSpec.RunAt, Occurs;
    forall s: nat ensures HasTerm(terms, s) <==> Occurs(docs, s) {
      PostingsNonEmpty(docs, s);
      if s in signs {
        var k :| 0 <= k < |signs| && signs[k] == s;
        assert terms[k].sign == s;
      }
    }
  }

  lemma {:induction false} LaidMonotone(terms: seq<Term>, file: seq<Posting>, j: nat, k: nat)
    requires Laid(terms, file) && j < k < |terms|
    ensures terms[j].offset + terms[j].num <= terms[k].offset
    decreases k
  {
    if j < k - 1 {
      LaidMonotone(terms, file, j, k - 1);
    }
  }

  /** Every posting of the index file belongs to the run of exactly one term. */
  lemma LaidPartition(terms: seq<Term>, file: seq<Posting>, h: nat) returns (k: nat)
    requires Laid(terms, file) && h < |file|
    ensures k < |terms| && terms[k].offset <= h < terms[k].offset + terms[k].num
    ensures forall j | 0 <= j < |terms| && terms[j].offset <= h < terms[j].offset + terms[j].num :: j == k
  {
    k := |terms| - 1;
    while terms[k].offset > h
      invariant k < |terms| && h < terms[k].offset + terms[k].num
      decreases k
    {
      assert k > 0;
      k := k - 1;
    }
    forall j | 0 <= j < |terms| && terms[j].offset <= h < terms[j].offset + terms[j].num
      ensures j == k
    {
      if j < k {
        LaidMonotone(terms, file, j, k);
      } else if k < j {
        LaidMonotone(terms, file, k, j);
      }
    }
  }

  function SignSet(terms: seq<Term>): set<nat> {
    set k | 0 <= k < |terms| :: terms[k].sign
  }

  lemma {:induction false} SignSetSize(terms: seq<Term>)
    requires SignsAscend(terms)
    ensures |SignSet(terms)| == |terms|
  {
    if terms != [] {
      var n := |terms| - 1;
      SignSetSize(terms[..n]);
      assert terms[n].sign !in SignSet(terms[..n]);
      assert SignSet(terms) == SignSet(terms[..n]) + {terms[n].sign};
    }
  }

  /** The term file has one record for every distinct sign of the documents. */
  lemma TermCount(docs: seq<Doc>, terms: seq<Term>, file: seq<Posting>)
    requires Flushed(docs, terms, file)
    ensures |terms| == |Signs(docs)| && (terms != [] <==> exists s: nat :: Occurs(docs, s))
  {
    hide Occurs, Postings, HitSpec.RunAt, Signs;
    SignSetSize(terms);
    forall s: nat ensures s in SignSet(terms) <==> s in Signs(docs) {
      OccursIsSign(docs, s);
      assert s in SignSet(terms) <==> HasTerm(terms, s);
    }
    assert SignSet(terms) == Signs(docs);
    if terms != [] {
      assert HasTerm(terms, terms[0].sign);
    }
    if s: nat :| Occurs(docs, s) {
      assert HasTerm(terms, s);
    }
  }
}
