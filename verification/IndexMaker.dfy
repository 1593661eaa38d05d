/** The index builder (makeindex/index_maker.cpp). */
module IndexMaker {
  import opened IndexTypes
  import Sorting
  import opened IndexSpec
  import HitSpec
  import opened FoldSpec
  import FlushSpec

  /** The chain of `index_node_t`; a node is never written again once it is linked in. */
  datatype IndexList = End | Node(index: Posting, next: IndexList)

  function Elems(l: IndexList): seq<Posting> {
    match l
    case End => []
    case Node(p, next) => [p] + Elems(next)
  }

  class TermInfo {
    const sign: nat
    var num: nat
    var index: IndexList

    constructor (sign: nat)
      ensures this.sign == sign && num == 0 && index == End
    {
      this.sign := sign;
      num := 0;
      index := End;
    }
  }

  /** What segmentation yields for one token: the sign of its text and its position. */
  datatype Token = Token(sign: nat, offset: nat)

  const DEFAULT_INDEX_BUFFER_SIZE: nat := 1024

  predicate BySign(a: TermInfo, b: TermInfo) {
    a.sign <= b.sign
  }

  function SignsOf(a: seq<TermInfo>): (r: seq<nat>)
    ensures |r| == |a|
  {
    seq<nat>(|a|, i requires 0 <= i < |a| => a[i].sign)
  }

  /** The entries one field contributes to its document. */
  function FieldEntries(tokens: seq<Token>, field: FieldSet, no: nat): (r: Doc)
    ensures |r| == |tokens|
  {
    seq(|tokens|, i requires 0 <= i < |tokens| => Entry(tokens[i].sign, field, no % 256, tokens[i].offset))
  }

  /** A field gives every sign as many entries as it has tokens with it, all of that field. */
  lemma FieldSigns(tokens: seq<Token>, field: FieldSet, no: nat, s: nat)
    ensures var e, n := FieldEntries(tokens, field, no), |set i | 0 <= i < |tokens| && tokens[i].sign == s|;
      Count(e, s) == n && Fields(e, s) == if n > 0 then field else 0
  {
    var e := FieldEntries(tokens, field, no);
    CountIs(e, s);
    var a, b := set i | 0 <= i < |tokens| && tokens[i].sign == s, set i | 0 <= i < |e| && e[i].sign == s;
    assert a == b;
    OneFieldUnion(e, s, field);
    CountFinds(e, s);
    if a != {} {
      var i :| i in a;
    }
  }

  lemma {:induction false} OneFieldUnion(e: Doc, s: nat, field: FieldSet)
    requires forall i | 0 <= i < |e| :: e[i].field == field
    ensures Fields(e, s) == if Count(e, s) > 0 then field else 0
  {
    if e != [] {
      assert forall i | 0 < i < |e| :: e[i] == e[1..][i - 1];
      OneFieldUnion(e[1..], s, field);
    }
  }

  /** What a document says once a field is added. */
  lemma FieldAdded(before: Doc, tokens: seq<Token>, field: FieldSet, no: nat, s: nat)
    ensures var after, n := before + FieldEntries(tokens, field, no),
                            |set i | 0 <= i < |tokens| && tokens[i].sign == s|;
      && Count(after, s) == Count(before, s) + n
      && Fields(after, s) == Fields(before, s) | if n > 0 then field else 0
  {
    CountAppend(before, FieldEntries(tokens, field, no), s);
    FieldSigns(tokens, field, no, s);
  }

  lemma AddedSigns(before: Doc, tokens: seq<Token>, field: FieldSet, no: nat)
    ensures forall s: nat ::
      Count(before + FieldEntries(tokens, field, no), s)
      == Count(before, s) + |set i | 0 <= i < |tokens| && tokens[i].sign == s|
    ensures forall s: nat ::
      Fields(before + FieldEntries(tokens, field, no), s)
      == Fields(before, s) | if exists i | 0 <= i < |tokens| :: tokens[i].sign == s then field else 0
  {
    forall s: nat
      ensures Count(before + FieldEntries(tokens, field, no), s)
              == Count(before, s) + |set i | 0 <= i < |tokens| && tokens[i].sign == s|
      ensures Fields(before + FieldEntries(tokens, field, no), s)
              == Fields(before, s) | if exists i | 0 <= i < |tokens| :: tokens[i].sign == s then field else 0
    {
      FieldAdded(before, tokens, field, no, s);
      var a := set i | 0 <= i < |tokens| && tokens[i].sign == s;
      if i :| 0 <= i < |tokens| && tokens[i].sign == s {
        assert i in a;
      } else {
        assert a == {};
      }
    }
  }

  class IndexMaker {
    const fieldMap: map<string, FieldSet>
    const segment: string -> Option<seq<Token>>

    var objNum: nat
    var termMap: map<nat, TermInfo>
    var termArr: seq<TermInfo>

    var buffer: array?<Entry>
    var bufferSize: nat
    var objIndexNum: nat
    var fieldNum: nat

    // the hit, index and term files
    var hits: seq<Hit>
    var indexFile: seq<Posting>
    var termFile: seq<Term>

    /** The documents finished so far. */
    ghost var docs: seq<Doc>

    ghost function Infos(): set<TermInfo>
      reads this`termArr
    {
      set t: TermInfo | t in termArr
    }

    ghost function BufferObj(): set<object>
      reads this`buffer
    {
      if buffer == null then {} else {buffer}
    }

    ghost function Repr(): set<object>
      reads this`termArr, this`buffer
    {
      {this} + Infos() + BufferObj()
    }

    /** The entries of the document under construction. */
    ghost function Pending(): Doc
      reads this`buffer, this`bufferSize, this`objIndexNum, buffer
      requires BufferValid()
    {
      if buffer == null then [] else buffer[..objIndexNum]
    }

    ghost predicate BufferValid()
      reads this`buffer, this`bufferSize, this`objIndexNum
    {
      && (buffer == null ==> objIndexNum == 0)
      && (buffer != null ==> buffer.Length == bufferSize && objIndexNum <= bufferSize)
    }

    /** `termArr` enumerates exactly the values of `termMap`, each once. */
    ghost predicate TermsLinked()
      reads this`termMap, this`termArr
    {
      && (forall s | s in termMap :: termMap[s].sign == s && termMap[s] in termArr)
      && (forall t | t in termArr :: t.sign in termMap && termMap[t.sign] == t)
      && (forall i, j | 0 <= i < j < |termArr| :: termArr[i] != termArr[j])
    }

    ghost predicate CountsMatch()
      reads this`termArr, termArr
    {
      forall t | t in termArr :: t.num == |Elems(t.index)| && t.num > 0
    }

    /** The posting list held for a sign. */
    ghost function ListOf(s: nat): seq<Posting>
      reads this`termMap, this`termArr, termArr
      requires TermsLinked()
    {
      if s in termMap then Elems(termMap[s].index) else []
    }

    /** The lists in memory are those of `docs`. */
    ghost predicate TermsFor(docs: seq<Doc>)
      reads this`termMap, this`termArr, termArr
    {
      && TermsLinked() && CountsMatch()
      && (forall s: nat :: ListOf(s) == Postings(docs, s))
    }

    /** The lists in memory and the hit file are those of the finished documents. */
    ghost predicate IndexValid()
      reads this`termMap, this`termArr, termArr, this`objNum, this`docs, this`hits
    {
      TermsFor(docs) && objNum == |docs| && hits == HitSpec.HitStream(docs)
    }

    ghost predicate Valid()
      reads this, termArr, buffer
    {
      BufferValid() && IndexValid()
    }

    constructor (fieldMap: map<string, FieldSet>, segment: string -> Option<seq<Token>>)
      ensures Valid() && fresh(Repr()) && docs == [] && Pending() == []
      ensures this.fieldMap == fieldMap && this.segment == segment
      ensures indexFile == [] && termFile == []
    {
      this.fieldMap := fieldMap;
      this.segment := segment;
      objNum := 0;
      termMap := map[];
      termArr := [];
      buffer := null;
      bufferSize := 0;
      objIndexNum := 0;
      fieldNum := 0;
      hits := [];
      indexFile := [];
      termFile := [];
      docs := [];
    }

    /** start_obj: whatever an abandoned document left behind is dropped. */
    method StartObj()
      requires Valid()
      modifies this`fieldNum, this`objIndexNum
      ensures Valid() && Pending() == [] && fieldNum == 0
    {
      fieldNum := 0;
      objIndexNum := 0;
    }

    /** __get_term_info: the record of a sign, created on first use. */
    method GetTermInfo(sign: nat) returns (info: TermInfo)
      requires TermsLinked()
      modifies this`termMap, this`termArr
      ensures TermsLinked() && sign in termMap && termMap[sign] == info
      ensures sign in old(termMap) ==> termMap == old(termMap) && termArr == old(termArr)
      ensures sign !in old(termMap) ==>
        && fresh(info) && info.num == 0 && info.index == End
        && termMap == old(termMap)[sign := info] && termArr == old(termArr) + [info]
    {
      if sign !in termMap {
        info := new TermInfo(sign);
        termMap := termMap[sign := info];
        termArr := termArr + [info];
      } else {
        info := termMap[sign];
      }
    }

    /** Links a finished posting in front of the list of its sign. */
    method PrependPosting(sign: nat, p: Posting)
      requires TermsLinked() && CountsMatch()
      modifies this`termMap, this`termArr, termArr
      ensures TermsLinked() && CountsMatch()
      ensures fresh(Infos() - old(Infos()))
      ensures ListOf(sign) == [p] + old(ListOf(sign))
      ensures forall s: nat :: s != sign ==> ListOf(s) == old(ListOf(s))
    {
      hide BufferValid;
      var info := GetTermInfo(sign);
      ghost var list := Elems(info.index);
      assert list == old(ListOf(sign));
      assert info.num == |list|;
      info.num := info.num + 1;
      if info.index != End {
        info.index := Node(p, info.index);
      } else {
        info.index := Node(p, End);
      }
      assert Elems(info.index) == [p] + list;
      assert forall t | t in termArr && t != info ::
        t in old(termArr) && t.num == old(t.num) && t.index == old(t.index);
    }

    /** __add_index_info: reserves the next slot, growing the buffer by half when it is full. */
    method AddIndexInfo() returns (slot: nat)
      requires BufferValid()
      modifies this`buffer, this`bufferSize, this`objIndexNum
      ensures BufferValid() && buffer != null && fresh(BufferObj() - old(BufferObj()))
      ensures slot == old(objIndexNum) && objIndexNum == slot + 1
      ensures buffer[..slot] == old(Pending())
    {
      if buffer != null {
        if objIndexNum == bufferSize {
          var newSize := bufferSize + bufferSize / 2 + 1;
          var oldBuffer := buffer;
          var newBuffer := new Entry[newSize](_ => Entry(0, 0, 0, 0));
          forall i | 0 <= i < objIndexNum {
            newBuffer[i] := oldBuffer[i];
          }
          buffer := newBuffer;
          bufferSize := newSize;
        }
        slot := objIndexNum;
        objIndexNum := objIndexNum + 1;
      } else {
        buffer := new Entry[DEFAULT_INDEX_BUFFER_SIZE](_ => Entry(0, 0, 0, 0));
        bufferSize := DEFAULT_INDEX_BUFFER_SIZE;
        objIndexNum := 1;
        slot := 0;
      }
    }

    /** add_field: appends one entry for every token of the field; an unknown field or a failed
        segmentation adds nothing. */
    method AddField(field: string, value: string) returns (ret: int)
      requires Valid()
      modifies this`buffer, this`bufferSize, this`objIndexNum, this`fieldNum, buffer
      ensures Valid() && fresh(BufferObj() - old(BufferObj()))
      ensures ret == if field !in fieldMap then 1 else if segment(value).None? then 2 else 0
      ensures ret == 0 ==>
        && fieldNum == old(fieldNum) + 1
        && Pending() == old(Pending()) + FieldEntries(segment(value).value, fieldMap[field], old(fieldNum))
      ensures ret != 0 ==> fieldNum == old(fieldNum) && Pending() == old(Pending())
      ensures ret == 0 ==> forall s: nat ::
        var tokens := segment(value).value;
        Count(Pending(), s) == Count(old(Pending()), s) + |set i | 0 <= i < |tokens| && tokens[i].sign == s|
      ensures ret == 0 ==> forall s: nat ::
        var tokens := segment(value).value;
        Fields(Pending(), s) == Fields(old(Pending()), s)
          | if exists i | 0 <= i < |tokens| :: tokens[i].sign == s then fieldMap[field] else 0
    {
      hide TermsFor, HitSpec.HitStream, FieldEntries, Pending;
      if field !in fieldMap {
        return 1;
      }
      var fieldId := fieldMap[field];
      var segmented := segment(value);
      if segmented.None? {
        return 2;
      }
      AddEntries(segmented.value, fieldId);
      AddedSigns(old(Pending()), segmented.value, fieldId, fieldNum);
      fieldNum := fieldNum + 1;
      assert IndexValid() == old(IndexValid());
      return 0;
    }

    /** The loop of add_field. */
    method AddEntries(tokens: seq<Token>, fieldId: FieldSet)
      requires BufferValid()
      modifies this`buffer, this`bufferSize, this`objIndexNum, buffer
      ensures BufferValid() && fresh(BufferObj() - old(BufferObj()))
      ensures Pending() == old(Pending()) + FieldEntries(tokens, fieldId, fieldNum)
    {
      ghost var entries := FieldEntries(tokens, fieldId, fieldNum);
      for k := 0 to |tokens|
        invariant BufferValid()
        invariant fresh(BufferObj() - old(BufferObj()))
        invariant Pending() == old(Pending()) + entries[..k]
      {
        var slot := AddIndexInfo();
        buffer[slot] := Entry(tokens[k].sign, fieldId, fieldNum % 256, tokens[k].offset);
        assert buffer[..objIndexNum] == buffer[..slot] + [entries[k]];
        assert entries[..k + 1] == entries[..k] + [entries[k]];
      }
      assert entries[..|tokens|] == entries;
    }

    /** The qsort call of finish_obj. */
    method SortBuffer()
      requires BufferValid() && buffer != null
      modifies buffer
      ensures Pending() == SortEntries(old(Pending()))
    {
      var sorted := SortEntries(buffer[..objIndexNum]);
      forall i | 0 <= i < objIndexNum {
        buffer[i] := sorted[i];
      }
      assert buffer[..objIndexNum] == sorted;
    }

    /** Writes one hit and counts it in the posting under construction. */
    method AddHit(info: Entry, lastSign: nat, node: Posting) returns (r: Posting)
      modifies this`hits
      ensures hits == old(hits) + [HitSpec.ToHit(info)]
      ensures r == WithHit(node, info, lastSign, |old(hits)|)
    {
      r := node.(hit := node.hit.(field := node.hit.field | info.field));
      if info.sign == lastSign {
        hits := hits + [HitSpec.ToHit(info)];
        r := r.(hit := r.hit.(num := (r.hit.num + 1) % HIT_NUM_MODULUS));
      } else {
        var loc := |hits|;
        hits := hits + [HitSpec.ToHit(info)];
        r := r.(hit := r.hit.(num := 1, loc := loc));
      }
    }

    /** The lists in memory are those of `docs` with the runs of `e` below `bound` linked in. */
    ghost predicate TermsAfter(docs: seq<Doc>, e: Doc, bound: nat)
      reads this`termMap, this`termArr, termArr
    {
      && TermsLinked() && CountsMatch()
      && (forall s: nat :: ListOf(s) == ListAfter(docs, e, s, bound))
    }

    /** The run of `lastSign` has ended before entry i: its posting is linked in. */
    method LinkRun(lastSign: nat, node: Posting, ghost e: Doc, ghost i: nat, ghost next: nat)
      requires SignOrdered(e) && 0 < i <= |e| && lastSign == LastSign(e, i)
      requires if i < |e| then OpensRun(e, i) && next == e[i].sign else next > lastSign
      requires node == NodeAt(HitTotal(docs), |docs|, e, i)
      requires TermsAfter(docs, e, lastSign)
      modifies this`termMap, this`termArr, termArr
      ensures TermsAfter(docs, e, next)
      ensures fresh(Infos() - old(Infos()))
    {
      NodeComplete(HitTotal(docs), |docs|, e, i);
      ListAfterStep(docs, e, i, next, lastSign);
      PrependPosting(lastSign, node);
      forall s: nat ensures ListOf(s) == ListAfter(docs, e, s, next) {
        ListAfterStep(docs, e, i, next, s);
      }
    }

    /** The loop state of finish_obj after i entries of the sorted document `e`. */
    ghost predicate Folding(e: Doc, i: nat, lastSign: nat, node: Option<Posting>)
      reads this`termMap, this`termArr, termArr, this`objNum, this`docs, this`hits
    {
      && SignOrdered(e) && i <= |e|
      && FoldState(objNum, lastSign, node, hits) == FoldStateAt(docs, e, i)
      && TermsAfter(docs, e, lastSign)
    }

    /** The posting the entry at i belongs to: the one under construction, or a new one once the
        finished run before it has been linked in. */
    method OpenPosting(info: Entry, lastSign: nat, node: Option<Posting>, ghost e: Doc, ghost i: nat)
      returns (r: Posting)
      requires Folding(e, i, lastSign, node) && i < |e| && info == e[i]
      modifies this`termMap, this`termArr, termArr
      ensures TermsAfter(docs, e, info.sign)
      ensures fresh(Infos() - old(Infos()))
      ensures r == if i > 0 && info.sign == lastSign then node.value else Posting(objNum, HitInfo(0, 0, 0))
    {
      if node.None? {
        r := Posting(objNum, HitInfo(0, 0, 0));
        forall s: nat ensures ListOf(s) == ListAfter(docs, e, s, info.sign) {
          ListAfterFirst(docs, e, s);
        }
      } else if info.sign != lastSign {
        LinkRun(lastSign, node.value, e, i, info.sign);
        r := Posting(objNum, HitInfo(0, 0, 0));
      } else {
        r := node.value;
      }
    }

    /** One round of the loop of finish_obj. */
    method FoldEntry(info: Entry, lastSign: nat, node: Option<Posting>, ghost e: Doc, ghost i: nat)
      returns (r: Posting)
      requires Folding(e, i, lastSign, node) && i < |e| && info == e[i]
      modifies this`termMap, this`termArr, termArr, this`hits
      ensures Folding(e, i + 1, info.sign, Some(r))
      ensures fresh(Infos() - old(Infos()))
    {
      hide FoldStateAt, HitSpec.HitStream, HitSpec.ToHits, LastSign, NodeAt, WithHit;
      r := OpenPosting(info, lastSign, node, e, i);
      label Linked:
      FoldStep(docs, e, i, FoldState(objNum, lastSign, node, hits), r);
      r := AddHit(info, lastSign, r);
      assert TermsAfter(docs, e, info.sign) == old@Linked(TermsAfter(docs, e, info.sign));
    }

    /** Counts the document; the lists and the hit file already contain it. */
    method CountObj(ghost raw: Doc)
      requires TermsFor(docs + [raw]) && objNum == |docs|
      requires hits == HitSpec.HitStream(docs + [raw])
      modifies this`objNum, this`docs
      ensures IndexValid() && docs == old(docs) + [raw] && objNum == |docs|
    {
      objNum := objNum + 1;
      docs := docs + [raw];
    }

    /** finish_obj: folds the entries of the document into one posting per sign. */
    method FinishObj() returns (ret: int)
      requires Valid()
      modifies Repr()
      ensures Valid() && ret == 0 && fresh(Repr() - old(Repr()))
      ensures docs == old(docs) + [old(Pending())]
      ensures indexFile == old(indexFile) && termFile == old(termFile)
    {
      ghost var raw := Pending();
      if objIndexNum == 0 {
        EmptyDoc(docs);
        CountObj(raw);
        return 0;
      }
      hide TermsFor, HitSpec.HitStream, SortEntries;
      SortBuffer();
      FoldDoc(raw);
      return 0;
    }

    /** The part of finish_obj after the sort. */
    method FoldDoc(ghost raw: Doc)
      requires BufferValid() && objIndexNum > 0 && IndexValid() && Pending() == SortEntries(raw)
      modifies this`termMap, this`termArr, termArr, this`hits, this`objNum, this`docs
      ensures IndexValid() && docs == old(docs) + [raw]
      ensures fresh(Infos() - old(Infos()))
    {
      hide Folding, IndexValid, SortEntries, SignOrdered;
      ghost var e := Pending();
      SortEntriesSorted(raw);
      FoldingStart(e);
      var lastSign, node := FoldBuffer(e);
      CloseFold(lastSign, node, raw, e);
    }

    lemma FoldingStart(e: Doc)
      requires IndexValid() && SignOrdered(e)
      ensures Folding(e, 0, 0, None)
    {
    }

    /** The loop of finish_obj; the last run of the document is still under construction after it. */
    method FoldBuffer(ghost e: Doc) returns (lastSign: nat, node: Posting)
      requires BufferValid() && objIndexNum > 0 && e == Pending() && Folding(e, 0, 0, None)
      modifies this`termMap, this`termArr, termArr, this`hits
      ensures Folding(e, |e|, lastSign, Some(node))
      ensures fresh(Infos() - old(Infos()))
    {
      hide FoldStateAt, TermsAfter, SignOrdered, LastSign;
      lastSign := 0;
      var current: Option<Posting> := None;
      for i := 0 to objIndexNum
        invariant Folding(e, i, lastSign, current) && (i > 0 ==> current.Some?)
        invariant fresh(Infos() - old(Infos()))
      {
        var info := buffer[i];
        var posting := FoldEntry(info, lastSign, current, e, i);
        current := Some(posting);
        lastSign := info.sign;
      }
      node := current.value;
    }

    /** The last run of the document is linked in behind the loop. */
    method CloseFold(lastSign: nat, node: Posting, ghost raw: Doc, ghost e: Doc)
      requires |e| > 0 && e == SortEntries(raw) && Folding(e, |e|, lastSign, Some(node))
      modifies this`termMap, this`termArr, termArr, this`objNum, this`docs
      ensures IndexValid() && docs == old(docs) + [raw]
      ensures fresh(Infos() - old(Infos()))
    {
      hide HitSpec.HitStream, Postings, HitSpec.ToHits, SortEntries, ListAfter, NodeAt, HitTotal;
      LinkRun(lastSign, node, e, |e|, lastSign + 1);
      TermsForDoc(raw, e, lastSign + 1);
      CountObj(raw);
    }

    lemma TermsForDoc(raw: Doc, e: Doc, bound: nat)
      requires e == SortEntries(raw) && |e| > 0 && bound == e[|e| - 1].sign + 1 && TermsAfter(docs, e, bound)
      ensures TermsFor(docs + [raw])
      ensures HitSpec.HitStream(docs + [raw]) == HitSpec.HitStream(docs) + HitSpec.ToHits(e[..|e|])
    {
      ListsAfterDoc(docs, raw, e, bound);
    }

    /** std::sort of `_term_arr`: the same records, now by strictly ascending sign. */
    method SortTerms()
      requires TermsFor(docs)
      modifies this`termArr
      ensures TermsFor(docs)
      ensures forall i, j | 0 <= i < j < |termArr| :: termArr[i].sign < termArr[j].sign
      ensures Infos() == old(Infos())
    {
      hide Postings, Elems, Sorting.Sort;
      var sorted := Sorting.Sort(termArr, BySign);
      Sorting.SortSorted(termArr, BySign);
      Sorting.SameElements(termArr, sorted);
      Sorting.DistinctSort(termArr, sorted);
      forall i, j | 0 <= i < j < |sorted| ensures sorted[i].sign < sorted[j].sign {
        assert BySign(sorted[i], sorted[j]) && sorted[i] != sorted[j];
        assert sorted[i] in sorted && sorted[j] in sorted;
      }
      ghost var before := Infos();
      termArr := sorted;
      forall s: nat ensures ListOf(s) == old(ListOf(s)) {}
    }

    /** Writes one posting list behind what the index file holds. */
    method WriteList(list: IndexList) returns (offset: nat, count: nat)
      modifies this`indexFile
      ensures indexFile == old(indexFile) + Elems(list)
      ensures count == |Elems(list)|
      ensures list != End ==> offset == |old(indexFile)|
    {
      var node := list;
      count := 0;
      offset := 0;
      while node != End
        invariant indexFile + Elems(node) == old(indexFile) + Elems(list)
        invariant count + |Elems(node)| == |Elems(list)|
        invariant count == 0 ==> node == list && indexFile == old(indexFile)
        invariant count > 0 ==> offset == |old(indexFile)|
        decreases node
      {
        if count == 0 {
          offset := |indexFile|;
        }
        assert indexFile + Elems(node) == (indexFile + [node.index]) + Elems(node.next);
        indexFile := indexFile + [node.index];
        node := node.next;
        count := count + 1;
      }
    }

    /** One round of the loop of flush; false stands for its count mismatch exit. */
    method FlushTerm(info: TermInfo, ghost signs: seq<nat>) returns (ok: bool)
      requires TermsFor(docs) && info in termArr && FlushSpec.Written(docs, termFile, indexFile, signs)
      modifies this`indexFile, this`termFile
      ensures ok && FlushSpec.Written(docs, termFile, indexFile, signs + [info.sign])
    {
      hide FlushSpec.Written, Postings;
      assert Elems(info.index) == ListOf(info.sign) == Postings(docs, info.sign) != [];
      FlushSpec.WrittenStep(docs, termFile, indexFile, signs, info.sign);
      var offset, count := WriteList(info.index);
      if info.num != count {
        return false;
      }
      termFile := termFile + [Term(info.sign, offset, info.num)];
      return true;
    }

    lemma SignsInArr(s: nat)
      requires TermsFor(docs)
      ensures s in SignsOf(termArr) <==> Postings(docs, s) != []
    {
      assert ListOf(s) == Postings(docs, s);
      if s in SignsOf(termArr) {
        var k :| 0 <= k < |termArr| && SignsOf(termArr)[k] == s;
        assert termArr[k] in termArr;
      }
      if s in termMap {
        var k :| 0 <= k < |termArr| && termArr[k] == termMap[s];
        assert SignsOf(termArr)[k] == s;
      }
    }

    lemma FlushedAll()
      requires TermsFor(docs) && FlushSpec.Written(docs, termFile, indexFile, SignsOf(termArr))
      requires forall i, j | 0 <= i < j < |termArr| :: termArr[i].sign < termArr[j].sign
      ensures FlushSpec.Flushed(docs, termFile, indexFile)
    {
      hide FlushSpec.Written, Postings, FlushSpec.Flushed, TermsFor;
      forall s: nat ensures s in SignsOf(termArr) <==> Postings(docs, s) != [] {
        SignsInArr(s);
      }
      FlushSpec.WrittenAll(docs, termFile, indexFile, SignsOf(termArr));
    }

    /** flush: writes the term and index files. The count mismatch exit (2) is never taken. */
    method Flush() returns (ret: int)
      requires Valid() && indexFile == [] && termFile == []
      modifies this`termArr, this`indexFile, this`termFile
      ensures Valid() && docs == old(docs) && ret == 0
      ensures FlushSpec.Flushed(docs, termFile, indexFile)
    {
      hide FlushSpec.Written, Postings, FlushSpec.Flushed, TermsFor;
      SortTerms();
      var ok := FlushTerms();
      if !ok {
        return 2;
      }
      FlushedAll();
      return 0;
    }

    /** The loop of flush over the sorted terms. */
    method FlushTerms() returns (ok: bool)
      requires TermsFor(docs) && indexFile == [] && termFile == []
      modifies this`indexFile, this`termFile
      ensures ok && FlushSpec.Written(docs, termFile, indexFile, SignsOf(termArr))
    {
      hide FlushSpec.Written, Postings, TermsFor;
      FlushSpec.WrittenNothing(docs);
      for k := 0 to |termArr|
        invariant FlushSpec.Written(docs, termFile, indexFile, SignsOf(termArr[..k]))
      {
        assert TermsFor(docs) == old(TermsFor(docs));
        SignsMore(k);
        ok := FlushTerm(termArr[k], SignsOf(termArr[..k]));
        if !ok {
          return;
        }
      }
      assert termArr[..|termArr|] == termArr;
      return true;
    }

    lemma SignsMore(k: nat)
      requires k < |termArr|
      ensures SignsOf(termArr[..k + 1]) == SignsOf(termArr[..k]) + [termArr[k].sign]
    {
    }
  }
}
