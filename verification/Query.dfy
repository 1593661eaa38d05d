/** The query normaliser and the splitter behind it (se/da/da.cpp). */
module Query {

  function Lower(c: char): char {
    if 'A' <= c <= 'Z' then (c as int + 32) as char else c
  }

  /** `isspace` in the C locale. */
  predicate IsSpace(c: char) {
    c == ' ' || 9 <= c as int <= 13
  }

  /** A capital becomes the small letter at its place in the alphabet, anything else stays. */
  lemma LowerIs(c: char)
    ensures "ABCDEFGHIJKLMNOPQRSTUVWXYZ"[0] <= c <= "ABCDEFGHIJKLMNOPQRSTUVWXYZ"[25] ==>
      0 <= c as int - 'A' as int < 26 && Lower(c) == "abcdefghijklmnopqrstuvwxyz"[c as int - 'A' as int]
    ensures !('A' <= c <= 'Z') ==> Lower(c) == c
    ensures IsSpace(c) <==> c in {' ', '\t', '\n', '\r', 11 as char, 12 as char}
  {
  }

  /** What one character becomes. */
  function Clean(c: char): char {
    if IsSpace(Lower(c)) then ' ' else Lower(c)
  }

  /** The rest of the normalised query, when `prev` is the character last kept. */
  function Normalized(s: string, prev: char): string {
    if s == [] then []
    else
      var c := Clean(s[0]);
      if c == ' ' && prev == ' ' then Normalized(s[1..], prev) else [c] + Normalized(s[1..], c)
  }

  lemma CleanAt(kept: string, s: string, j: nat, prev: char)
    requires j < |s|
    ensures kept + Normalized(s[j..], prev) ==
      if Clean(s[j]) == ' ' && prev == ' ' then kept + Normalized(s[j + 1..], prev)
      else kept + [Clean(s[j])] + Normalized(s[j + 1..], Clean(s[j]))
  {
    assert s[j..][1..] == s[j + 1..];
  }

  /** The two conditional writes to the character under the cursor. */
  method CleanChar(query: array<char>, j: nat)
    requires j < query.Length
    modifies query
    ensures query[j] == Clean(old(query[j]))
    ensures forall k | 0 <= k < query.Length && k != j :: query[k] == old(query[k])
  {
    if 'A' <= query[j] <= 'Z' {
      query[j] := (query[j] as int + 32) as char;
    }
    if IsSpace(query[j]) {
      query[j] := ' ';
    }
  }

  /** normalize_query, on the buffer of the string. Before anything is kept the code reads the
      character at index -1; `before` stands for whatever it finds there. */
  method NormalizeQuery(query: array<char>, before: char) returns (length: nat)
    modifies query
    ensures length <= query.Length
    ensures query[..length] == Normalized(old(query[..]), before)
  {
    hide Clean, Normalized;
    ghost var s := query[..];
    ghost var kept: string, prev := [], before;
    var i := -1;
    var j := 0;
    var size := query.Length;
    while j < size
      invariant -1 <= i < j <= size
      invariant forall k | j <= k < size :: query[k] == s[k]
      invariant |kept| == i + 1 && forall k | 0 <= k <= i :: query[k] == kept[k]
      invariant prev == if i < 0 then before else query[i]
      invariant Normalized(s, before) == kept + Normalized(s[j..], prev)
    {
      CleanAt(kept, s, j, prev);
      CleanChar(query, j);
      if query[j] == ' ' && (if i < 0 then before else query[i]) == ' ' {
        j := j + 1;
      } else {
        i := i + 1;
        query[i] := query[j];
        kept, prev := kept + [query[i]], query[i];
        j := j + 1;
      }
    }
    NormalizedNothing(prev);
    assert query[..i + 1] == kept == kept + [] && s[j..] == [];
    length := i + 1;
  }

  /** The strings `std::getline` yields: a delimiter at the very end opens no further item. */
  function Split(s: string, delim: char): seq<string>
    decreases |s|
  {
    if s == [] then []
    else
      var k := FirstAt(s, delim);
      [s[..k]] + if k < |s| then Split(s[k + 1..], delim) else []
  }

  function FirstAt(s: string, delim: char): (k: nat)
    ensures k <= |s| && delim !in s[..k]
    ensures k < |s| ==> s[k] == delim
  {
    if s == [] || s[0] == delim then 0
    else
      var k := 1 + FirstAt(s[1..], delim);
      assert s[..k] == [s[0]] + s[1..][..k - 1];
      k
  }

  /** The getline loop of split. */
  method SplitQuery(s: string, delim: char) returns (result: seq<string>)
    ensures result == Split(s, delim)
  {
    result := [];
    var stream := s;
    while stream != []
      invariant Split(s, delim) == result + Split(stream, delim)
      decreases |stream|
    {
      var k := FirstAt(stream, delim);
      result := result + [stream[..k]];
      stream := if k < |stream| then stream[k + 1..] else [];
    }
  }

  // ---- what it means ---------------------------------------------------------------------

  /** The maximal whitespace-free runs of the lowercased input; `w` is the run under way. */
  function WordsFrom(w: string, s: string): seq<string>
    decreases |s|
  {
    if s == [] then (if w == [] then [] else [w])
    else if IsSpace(s[0]) then (if w == [] then [] else [w]) + WordsFrom([], s[1..])
    else WordsFrom(w + [Lower(s[0])], s[1..])
  }

  function Words(s: string): seq<string> {
    WordsFrom([], s)
  }

  /** `w` is the lowered text between `from` and `to`, a whitespace-free run that ends at whitespace. */
  predicate IsRun(s: string, from: nat, to: nat, w: string) {
    && from < to <= |s| && |w| == to - from
    && (forall i | from <= i < to :: !IsSpace(s[i]) && w[i - from] == Lower(s[i]))
    && (from > 0 ==> IsSpace(s[from - 1])) && (to < |s| ==> IsSpace(s[to]))
  }

  predicate Within(from: seq<nat>, to: seq<nat>, i: nat)
    requires |from| == |to|
  {
    exists k | 0 <= k < |from| :: from[k] <= i < to[k]
  }

  /** The words are the runs of the input from position b on, in order. */
  ghost predicate AreRuns(s: string, b: nat, words: seq<string>, from: seq<nat>, to: seq<nat>) {
    && |from| == |to| == |words|
    && (forall k | 0 <= k < |from| :: b <= from[k] && IsRun(s, from[k], to[k], words[k]))
    && (forall k, l | 0 <= k < l < |from| :: to[k] < from[l])
    && (forall i | b <= i < |s| && !IsSpace(s[i]) :: Within(from, to, i))
  }

  /** The words are the maximal whitespace-free runs: `from` and `to` say where each stands in the input. */
  lemma WordsAreRuns(s: string) returns (from: seq<nat>, to: seq<nat>)
    ensures AreRuns(s, 0, Words(s), from, to)
  {
    from, to := RunsFrom(s, 0, 0);
    assert s[0..0] == [] && s[0..] == s && LowerAll([]) == [];
  }

  function LowerAll(s: string): (r: string)
    ensures |r| == |s|
  {
    seq(|s|, i requires 0 <= i < |s| => Lower(s[i]))
  }

  lemma MoreRuns(s: string, b: nat, p: nat, w: string, words: seq<string>, f: seq<nat>, t: seq<nat>)
    requires AreRuns(s, p + 1, words, f, t) && IsRun(s, b, p, w)
    ensures AreRuns(s, b, [w] + words, [b] + f, [p] + t)
  {
    hide IsRun;
    var from, to := [b] + f, [p] + t;
    forall i | b <= i < |s| && !IsSpace(s[i]) ensures Within(from, to, i) {
      if i < p {
        assert from[0] <= i < to[0];
      } else if i == p {
        RunEnds(s, b, p, w);
      } else {
        var k :| 0 <= k < |f| && f[k] <= i < t[k];
        assert from[k + 1] <= i < to[k + 1];
      }
    }
    RunEnds(s, b, p, w);
  }

  lemma RunEnds(s: string, b: nat, p: nat, w: string)
    requires IsRun(s, b, p, w)
    ensures b < p <= |s| && (p < |s| ==> IsSpace(s[p]))
  {
  }

  lemma LaterRuns(s: string, p: nat, words: seq<string>, f: seq<nat>, t: seq<nat>)
    requires p < |s| && IsSpace(s[p]) && AreRuns(s, p + 1, words, f, t)
    ensures AreRuns(s, p, words, f, t)
  {
    hide IsRun, Within;
  }

  lemma WordsStep(s: string, b: nat, p: nat)
    requires b <= p < |s|
    ensures var w := LowerAll(s[b..p]);
      WordsFrom(w, s[p..]) ==
        if IsSpace(s[p]) then (if b == p then [] else [w]) + WordsFrom(LowerAll(s[p + 1..p + 1]), s[p + 1..])
        else WordsFrom(LowerAll(s[b..p + 1]), s[p + 1..])
  {
    hide IsSpace, Lower;
    assert s[p..][0] == s[p] && s[p..][1..] == s[p + 1..];
    assert LowerAll(s[p + 1..p + 1]) == [];
    assert LowerAll(s[b..p + 1]) == LowerAll(s[b..p]) + [Lower(s[p])];
  }

  lemma RunHere(s: string, b: nat, p: nat)
    requires b < p <= |s| && (b > 0 ==> IsSpace(s[b - 1])) && (p < |s| ==> IsSpace(s[p]))
    requires forall i | b <= i < p :: !IsSpace(s[i])
    ensures IsRun(s, b, p, LowerAll(s[b..p]))
  {
  }

  lemma {:induction false} RunsFrom(s: string, b: nat, p: nat) returns (from: seq<nat>, to: seq<nat>)
    requires b <= p <= |s| && (b > 0 ==> IsSpace(s[b - 1])) && forall i | b <= i < p :: !IsSpace(s[i])
    ensures AreRuns(s, b, WordsFrom(LowerAll(s[b..p]), s[p..]), from, to)
    decreases |s| - p
  {
    hide AreRuns, IsRun, IsSpace, LowerAll, WordsFrom;
    if p == |s| {
      from, to := if b < p then [b] else [], if b < p then [p] else [];
      LastRun(s, b, from, to);
    } else {
      WordsStep(s, b, p);
      if IsSpace(s[p]) {
        from, to := RunsFrom(s, p + 1, p + 1);
        var rest := WordsFrom(LowerAll(s[p + 1..p + 1]), s[p + 1..]);
        if b == p {
          LaterRuns(s, p, rest, from, to);
          assert [] + rest == rest;
        } else {
          RunHere(s, b, p);
          MoreRuns(s, b, p, LowerAll(s[b..p]), rest, from, to);
          from, to := [b] + from, [p] + to;
        }
      } else {
        from, to := RunsFrom(s, b, p + 1);
      }
    }
  }

  lemma LastRun(s: string, b: nat, from: seq<nat>, to: seq<nat>)
    requires b <= |s| && (b > 0 ==> IsSpace(s[b - 1])) && forall i | b <= i < |s| :: !IsSpace(s[i])
    requires from == (if b < |s| then [b] else []) && to == (if b < |s| then [|s|] else [])
    ensures AreRuns(s, b, WordsFrom(LowerAll(s[b..|s|]), s[|s|..]), from, to)
  {
    if b < |s| {
      RunHere(s, b, |s|);
      forall i | b <= i < |s| ensures Within(from, to, i) {
        assert from[0] <= i < to[0];
      }
    }
  }

  lemma CleanIs(c: char)
    ensures Clean(c) == ' ' <==> IsSpace(c)
    ensures !IsSpace(c) ==> Clean(c) == Lower(c) && !IsSpace(Lower(c))
    ensures !('A' <= Clean(c) <= 'Z') && (IsSpace(Clean(c)) ==> Clean(c) == ' ')
    ensures Clean(Clean(c)) == Clean(c)
  {
  }

  /** No capital letter, no whitespace but ' ', and no two adjacent spaces. */
  predicate Normal(s: string) {
    && (forall i | 0 <= i < |s| :: !('A' <= s[i] <= 'Z') && (IsSpace(s[i]) ==> s[i] == ' '))
    && (forall i | 0 <= i < |s| - 1 :: s[i] == ' ' ==> s[i + 1] != ' ')
  }

  lemma {:induction false} NormalForm(s: string, prev: char)
    ensures Normal(Normalized(s, prev))
    ensures prev == ' ' && Normalized(s, prev) != [] ==> Normalized(s, prev)[0] != ' '
  {
    if s != [] {
      CleanIs(s[0]);
      NormalForm(s[1..], prev);
      NormalForm(s[1..], Clean(s[0]));
    }
  }

  /** Normalising twice changes nothing. */
  lemma {:induction false} NormalizeIdempotent(s: string, prev: char)
    ensures Normalized(Normalized(s, prev), prev) == Normalized(s, prev)
  {
    if s != [] {
      var c := Clean(s[0]);
      CleanIs(s[0]);
      if c == ' ' && prev == ' ' {
        NormalizeIdempotent(s[1..], prev);
      } else {
        NormalizeIdempotent(s[1..], c);
        assert ([c] + Normalized(s[1..], c))[1..] == Normalized(s[1..], c);
      }
    }
  }

  lemma {:induction false} FirstAtSplit(w: string, s: string, delim: char)
    requires delim !in w
    ensures FirstAt(w + [delim] + s, delim) == |w|
    ensures FirstAt(w, delim) == |w|
  {
    if w != [] {
      assert delim !in w[1..];
      FirstAtSplit(w[1..], s, delim);
      assert (w + [delim] + s)[1..] == w[1..] + [delim] + s;
      assert w[0] in w;
    }
  }

  lemma SplitWord(w: string, s: string, delim: char)
    requires delim !in w
    ensures Split(w + [delim] + s, delim) == [w] + Split(s, delim)
    ensures Split(w, delim) == if w == [] then [] else [w]
  {
    FirstAtSplit(w, s, delim);
    var t := w + [delim] + s;
    assert t[..|w|] == w && t[|w| + 1..] == s;
    assert w[..|w|] == w;
  }

  lemma NormalizedStep(s: string, prev: char)
    requires s != []
    ensures Normalized(s, prev) ==
      if IsSpace(s[0])
      then (if prev == ' ' then [] else [' ']) + Normalized(s[1..], ' ')
      else [Lower(s[0])] + Normalized(s[1..], Lower(s[0]))
    ensures !IsSpace(s[0]) ==> Lower(s[0]) != ' '
  {
    CleanIs(s[0]);
    assert [] + Normalized(s[1..], ' ') == Normalized(s[1..], ' ');
  }

  lemma {:induction false} SplitFrom(w: string, s: string)
    requires ' ' !in w
    ensures Split(w + Normalized(s, if w == [] then ' ' else w[|w| - 1]), ' ') == WordsFrom(w, s)
    decreases |s|
  {
    hide Split, Lower, IsSpace, Normalized;
    var prev := if w == [] then ' ' else w[|w| - 1];
    if s == [] {
      NormalizedNothing(prev);
      assert w + [] == w;
      SplitWord(w, [], ' ');
    } else {
      var t := s[1..];
      NormalizedStep(s, prev);
      if IsSpace(s[0]) {
        var rest := Normalized(t, ' ');
        SplitFrom([], t);
        assert [] + rest == rest;
        if w == [] {
          assert w + Normalized(s, prev) == rest;
        } else {
          assert w[|w| - 1] in w;
          SplitWord(w, rest, ' ');
          assert w + Normalized(s, prev) == w + [' '] + rest;
        }
      } else {
        var c := Lower(s[0]);
        SplitFrom(w + [c], t);
        assert w + Normalized(s, prev) == w + [c] + Normalized(t, c);
      }
    }
  }

  lemma NormalizedNothing(prev: char)
    ensures Normalized([], prev) == []
  {
  }

  /** Splitting the normalised query yields exactly the words of the input, in order, unless the
      query starts with whitespace and the character before the buffer is not a space; then an
      empty string comes first. */
  lemma SplitNormalized(s: string, before: char)
    ensures Split(Normalized(s, before), ' ') ==
      (if s != [] && IsSpace(s[0]) && before != ' ' then [""] else []) + Words(s)
  {
    hide Split, Lower, IsSpace, Normalized;
    SplitFrom([], s);
    assert [] + Normalized(s, ' ') == Normalized(s, ' ');
    if s == [] {
      NormalizedNothing(before);
      NormalizedNothing(' ');
    } else {
      NormalizedStep(s, before);
      NormalizedStep(s, ' ');
      if IsSpace(s[0]) && before != ' ' {
        SplitLeading(Normalized(s[1..], ' '));
      }
    }
  }

  lemma SplitLeading(rest: string)
    ensures Split([' '] + rest, ' ') == [""] + Split([] + rest, ' ')
  {
    hide Split;
    assert [] + rest == rest;
    SplitWord([], rest, ' ');
    assert [] + [' '] + rest == [' '] + rest;
  }

  function Joined(words: seq<string>): string {
    if words == [] then [] else if |words| == 1 then words[0] else words[0] + [' '] + Joined(words[1..])
  }

  lemma {:induction false} NoWords(s: string)
    requires WordsFrom([], s) == []
    ensures s == [] || IsSpace(s[|s| - 1])
  {
    if s != [] {
      if IsSpace(s[0]) {
        assert [] + WordsFrom([], s[1..]) == WordsFrom([], s[1..]);
        NoWords(s[1..]);
      } else {
        SomeWord([] + [Lower(s[0])], s[1..]);
      }
    }
  }

  lemma {:induction false} SomeWord(w: string, s: string)
    requires w != []
    ensures WordsFrom(w, s) != []
    decreases |s|
  {
    if s != [] && !IsSpace(s[0]) {
      SomeWord(w + [Lower(s[0])], s[1..]);
    }
  }

  lemma {:induction false} JoinedFrom(w: string, s: string)
    requires ' ' !in w
    ensures w + Normalized(s, if w == [] then ' ' else w[|w| - 1])
      == Joined(WordsFrom(w, s)) + if s != [] && IsSpace(s[|s| - 1]) && WordsFrom(w, s) != [] then [' '] else []
    decreases |s|
  {
    hide Lower, IsSpace, Normalized;
    var prev := if w == [] then ' ' else w[|w| - 1];
    if s == [] {
      NormalizedNothing(prev);
    } else {
      var t := s[1..];
      NormalizedStep(s, prev);
      assert t != [] ==> t[|t| - 1] == s[|s| - 1];
      if IsSpace(s[0]) {
        var rest, words := Normalized(t, ' '), WordsFrom([], t);
        JoinedFrom([], t);
        assert [] + rest == rest && [] + words == words;
        if w == [] {
          assert w + Normalized(s, prev) == rest;
          if words == [] {
            NoWords(t);
          }
        } else {
          assert w[|w| - 1] in w;
          assert w + Normalized(s, prev) == w + [' '] + rest;
          if words == [] {
            NoWords(t);
            assert WordsFrom(w, s) == [w];
          } else {
            assert ([w] + words)[1..] == words;
          }
        }
      } else {
        var c := Lower(s[0]);
        JoinedFrom(w + [c], t);
        assert w + Normalized(s, prev) == w + [c] + Normalized(t, c);
        if t == [] {
          assert t == [] ==> s[|s| - 1] == s[0];
        }
      }
    }
  }

  /** The normalised query: the words with one space between them, one in front if the query starts with
      whitespace that is kept, and one behind if it ends with whitespace. */
  lemma NormalizedIs(s: string, before: char)
    ensures Normalized(s, before) ==
      (if s != [] && IsSpace(s[0]) && before != ' ' then [' '] else [])
      + Joined(Words(s))
      + if Words(s) != [] && IsSpace(s[|s| - 1]) then [' '] else []
  {
    hide Lower, IsSpace, Normalized;
    JoinedFrom([], s);
    assert [] + Normalized(s, ' ') == Normalized(s, ' ');
    if s == [] {
      NormalizedNothing(before);
      NormalizedNothing(' ');
    } else {
      NormalizedStep(s, before);
      NormalizedStep(s, ' ');
      var rest := Normalized(s[1..], ' ');
      assert [] + rest == rest;
      var joined, behind := Joined(Words(s)), if Words(s) != [] && IsSpace(s[|s| - 1]) then [' '] else [];
      assert [] + joined + behind == joined + behind;
      assert [' '] + (joined + behind) == [' '] + joined + behind;
    }
  }

  /** So the words come out exactly under that condition. */
  lemma SplitIsWords(s: string, before: char)
    ensures Split(Normalized(s, before), ' ') == Words(s) <==> !(s != [] && IsSpace(s[0]) && before != ' ')
  {
    SplitNormalized(s, before);
  }

  /** The smallest such query: behind a character that is not a space, " a" splits into two items. */
  lemma EmptyItemFirst()
    ensures Split(Normalized(" a", 'x'), ' ') == ["", "a"] && Words(" a") == ["a"]
  {
    SplitNormalized(" a", 'x');
    assert " a"[1..] == "a" && "a"[1..] == "" && [] + ['a'] == "a";
    assert WordsFrom("a", "") == ["a"];
    assert WordsFrom([], "a") == ["a"];
    assert [] + ["a"] == ["a"];
  }
}
