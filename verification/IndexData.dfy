/** The index as the searcher loads it (index/index_data.cpp). */
module IndexData {
  import opened IndexTypes
  import FlushSpec
  import BriefFile

  const TWO_32: int := 0x1_0000_0000

  /** Unsigned 32-bit addition and subtraction. */
  function Add32(a: nat, b: nat): nat {
    (a + b) % TWO_32
  }

  function Sub32(a: nat, b: nat): nat {
    (a - b) % TWO_32
  }

  /** The midpoint locate_term computes. */
  function Mid(low: nat, high: nat): nat {
    Add32(low, high) / 2
  }

  /** Where a search stands: between two bounds, or at its end. */
  datatype Search = Open(low: nat, high: nat) | Closed(found: Option<Term>)

  /** One round of locate_term. A midpoint outside the table does not occur: even a wrapped sum halves
      to less than the table has terms. */
  function Probed(term: seq<Term>, sign: nat, s: Search): Search
    requires s.Open? ==> s.high < |term|
  {
    if s.Closed? then s
    else if s.low > s.high then Closed(None)
    else
      var mid := Mid(s.low, s.high);
      assert mid <= (s.low + s.high) / 2;
      if term[mid].sign > sign then (if mid == 0 then Closed(None) else Open(s.low, Sub32(mid, 1)))
      else if term[mid].sign < sign then Open(Add32(mid, 1), s.high)
      else Closed(Some(term[mid]))
  }

  predicate Table(term: seq<Term>) {
    0 < |term| < TWO_32 && FlushSpec.SignsAscend(term)
  }

  lemma ProbedInTable(term: seq<Term>, sign: nat, s: Search)
    requires Table(term) && (s.Open? ==> s.high < |term|)
    ensures Probed(term, sign, s).Open? ==> Probed(term, sign, s).high < |term|
  {
  }

  /** The search after `k` rounds. */
  function Rounds(term: seq<Term>, sign: nat, k: nat): (s: Search)
    requires Table(term)
    ensures s.Open? ==> s.high < |term|
  {
    if k == 0 then Open(0, Sub32(|term|, 1))
    else
      ProbedInTable(term, sign, Rounds(term, sign, k - 1));
      Probed(term, sign, Rounds(term, sign, k - 1))
  }

  /** Up to 2^31 terms nothing in a round wraps. */
  lemma SearchStep(num: nat, low: nat, high: nat)
    requires low <= high < num <= 0x8000_0000
    ensures low <= Mid(low, high) <= high
    ensures Add32(Mid(low, high), 1) == Mid(low, high) + 1
    ensures Mid(low, high) > 0 ==> Sub32(Mid(low, high), 1) == Mid(low, high) - 1
  {
  }

  lemma ProbedInside(term: seq<Term>, sign: nat, low: nat, high: nat)
    requires low <= high < |term| <= 0x8000_0000
    ensures var mid := Mid(low, high);
      && mid < |term|
      && Probed(term, sign, Open(low, high)) ==
        if term[mid].sign > sign then (if mid == 0 then Closed(None) else Open(low, mid - 1))
        else if term[mid].sign < sign then Open(mid + 1, high)
        else Closed(Some(term[mid]))
  {
    SearchStep(|term|, low, high);
  }

  lemma Excluded(term: seq<Term>, sign: nat, mid: nat)
    requires FlushSpec.SignsAscend(term) && mid < |term|
    ensures term[mid].sign < sign ==> forall k | 0 <= k <= mid :: term[k].sign < sign
    ensures term[mid].sign > sign ==> forall k | mid <= k < |term| :: term[k].sign > sign
  {
  }

  ghost predicate Ends(term: seq<Term>, sign: nat)
    requires Table(term)
  {
    exists k: nat :: Rounds(term, sign, k).Closed?
  }

  lemma {:induction false} EndsFrom(term: seq<Term>, sign: nat, k: nat)
    requires Table(term) && |term| <= 0x8000_0000
    ensures Rounds(term, sign, k).Closed? || Ends(term, sign)
    decreases var s := Rounds(term, sign, k); if s.Open? && s.low <= s.high then s.high + 1 - s.low else 0
  {
    var s := Rounds(term, sign, k);
    if s.Open? {
      assert Rounds(term, sign, k + 1) == Probed(term, sign, s);
      if s.low <= s.high {
        SearchStep(|term|, s.low, s.high);
        if Probed(term, sign, s).Open? {
          EndsFrom(term, sign, k + 1);
        }
      }
    }
  }

  lemma NextRound(term: seq<Term>, sign: nat, k: nat)
    requires Table(term)
    ensures Rounds(term, sign, 0) == Open(0, |term| - 1)
    ensures Rounds(term, sign, k + 1) == Probed(term, sign, Rounds(term, sign, k))
  {
    hide Probed;
  }

  ghost predicate AllBelow(term: seq<Term>, sign: nat) {
    forall i | 0 <= i < |term| :: term[i].sign < sign
  }

  /** Below a sign beyond all entries the lower bound moves: up while the sum of the bounds fits, and
      back into the lower half of the table once it wraps, which it does before the bounds meet. */
  lemma ProbedUp(term: seq<Term>, sign: nat, low: nat)
    requires Table(term) && AllBelow(term, sign) && low < |term| && |term| > 0x8000_0000
    ensures var high := |term| - 1;
      && Probed(term, sign, Open(low, high)) == Open(Mid(low, high) + 1, high)
      && Mid(low, high) < high
      && (low + high < TWO_32 ==> low <= Mid(low, high))
      && (low + high >= TWO_32 ==> Mid(low, high) < low)
  {
  }

  /** So beyond 2^31 terms that search never closes. */
  lemma {:induction false} NeverEnds(term: seq<Term>, sign: nat, k: nat)
    requires Table(term) && AllBelow(term, sign) && |term| > 0x8000_0000
    ensures var s := Rounds(term, sign, k); s.Open? && s.low <= s.high == |term| - 1
  {
    hide Probed, Table, AllBelow, Rounds, Mid;
    NextRound(term, sign, if k == 0 then 0 else k - 1);
    if k > 0 {
      NeverEnds(term, sign, k - 1);
      var low := Rounds(term, sign, k - 1).low;
      assert Rounds(term, sign, k - 1) == Open(low, |term| - 1);
      ProbedUp(term, sign, low);
    }
  }

  /** Some round of it takes a midpoint below both bounds. */
  lemma {:induction false} WrapIsReached(term: seq<Term>, sign: nat, k: nat, low: nat) returns (r: nat)
    requires Table(term) && AllBelow(term, sign) && |term| > 0x8000_0000
    requires low < |term| && Rounds(term, sign, k) == Open(low, |term| - 1)
    ensures var s := Rounds(term, sign, r); s.Open? && s.low <= s.high && Mid(s.low, s.high) < s.low
    decreases |term| - low
  {
    hide Probed, Table, AllBelow, Rounds, Mid;
    ProbedUp(term, sign, low);
    r := k;
    if low + |term| - 1 < TWO_32 {
      NextRound(term, sign, k);
      r := WrapIsReached(term, sign, k + 1, Mid(low, |term| - 1) + 1);
    }
  }

  /** locate_term ends for every sign exactly up to 2^31 terms. */
  lemma EndsExactly(term: seq<Term>)
    requires Table(term)
    ensures (forall sign: nat :: Ends(term, sign)) <==> |term| <= 0x8000_0000
  {
    if |term| <= 0x8000_0000 {
      forall sign: nat ensures Ends(term, sign) {
        EndsFrom(term, sign, 0);
      }
    } else {
      var sign := term[|term| - 1].sign + 1;
      forall k: nat ensures !Rounds(term, sign, k).Closed? {
        NeverEnds(term, sign, k);
      }
      assert !Ends(term, sign);
    }
  }

  class IndexData {
    var term: seq<Term>
    var index: seq<Posting>
    var brief: seq<Brief>

    constructor ()
      ensures term == [] && index == [] && brief == []
    {
      term, index, brief := [], [], [];
    }

    /** load: 3 for a term file that cannot be read, which includes an empty one; 4 for the briefs. */
    method Load(indexFile: seq<Posting>, termFile: seq<Term>, briefFile: seq<BriefFile.Byte>, parse: BriefFile.Parser)
      returns (ret: int)
      modifies this
      ensures ret == if termFile == [] then 3 else if BriefFile.ParseBriefs(briefFile, parse).None? then 4 else 0
      ensures ret == 0 ==>
        term == termFile != [] && index == indexFile && brief == BriefFile.ParseBriefs(briefFile, parse).value
    {
      index := indexFile;
      if termFile == [] {
        return 3;
      }
      term := termFile;
      var briefs := BriefFile.LoadBrief(briefFile, parse);
      if briefs.None? {
        return 4;
      }
      brief := briefs.value;
      return 0;
    }

    /** locate_term: the entry with that sign, if there is one; the search is the one above. */
    method LocateTerm(sign: nat) returns (r: Option<Term>)
      requires 0 < |term| <= 0x8000_0000 && FlushSpec.SignsAscend(term)
      ensures r.Some? ==> r.value in term && r.value.sign == sign
      ensures r.None? <==> !FlushSpec.HasTerm(term, sign)
      ensures exists k: nat :: Rounds(term, sign, k) == Closed(r)
    {
      var num := |term|;
      var low: nat := 0;
      var high: nat := Sub32(num, 1);
      ghost var k := 0;
      while low <= high
        invariant low <= num && high < num
        invariant forall k | 0 <= k < low :: term[k].sign < sign
        invariant forall k | high < k < num :: term[k].sign > sign
        invariant Rounds(term, sign, k) == Open(low, high)
        decreases high + 1 - low
      {
        hide Mid, Add32, Sub32, Rounds, Probed, FlushSpec.SignsAscend;
        SearchStep(num, low, high);
        NextRound(term, sign, k);
        ProbedInside(term, sign, low, high);
        var mid := Mid(low, high);
        Excluded(term, sign, mid);
        k := k + 1;
        if term[mid].sign > sign {
          if mid == 0 {
            return None;
          }
          high := Sub32(mid, 1);
        } else if term[mid].sign < sign {
          low := Add32(mid, 1);
        } else {
          return Some(term[mid]);
        }
      }
      hide Rounds;
      NextRound(term, sign, k);
      return None;
    }

    /** get_brief. */
    function GetBrief(objId: nat): Option<Brief>
      reads this`brief
    {
      if objId >= |brief| then None else Some(brief[objId])
    }
  }
}
