/** The segment scanner's context in terms of the blocks of the text: braces, their partners and headers. */
module GradleBlocks {
  import opened Text
  import opened ExecutableDsl
  import opened GradleSegments

  // ----- open blocks -----

  function QuoteAt(content: string, i: nat): Quote
    requires i <= |content|
  {
    AfterText(Unquoted, content[..i])
  }

  /** Braces opened minus braces closed between the brace at `p` and position `i`. */
  function Depth(content: string, p: nat, i: nat): int {
    if p < i <= |content| then Balance(content[p + 1..i], Unquoted) else 0
  }

  predicate OpensAt(content: string, p: nat) {
    p < |content| && content[p] == '{' && QuoteAt(content, p) == Unquoted
  }

  /** The brace at `p` opens a block that is not closed before `i`. */
  ghost predicate Encloses(content: string, p: nat, i: nat) {
    p < i <= |content| && OpensAt(content, p) && forall n :: p < n <= i ==> Depth(content, p, n) >= 0
  }

  lemma {:induction false} AfterTextAppend(q: Quote, a: string, b: string)
    ensures AfterText(q, a + b) == AfterText(AfterText(q, a), b)
    decreases |a|
  {
    if a == "" {
      assert a + b == b;
    } else {
      assert (a + b)[1..] == a[1..] + b;
      AfterTextAppend(AfterChar(q, a[0]), a[1..], b);
    }
  }

  /** Inside a block the quotes are those of the whole text. */
  lemma QuoteInside(content: string, p: nat, i: nat)
    requires OpensAt(content, p) && p < i <= |content|
    ensures AfterText(Unquoted, content[p + 1..i]) == QuoteAt(content, i)
  {
    AfterTextSnoc(Unquoted, content, p);
    AfterTextAppend(Unquoted, content[..p + 1], content[p + 1..i]);
    assert content[..p + 1] + content[p + 1..i] == content[..i];
  }

  function Turn(content: string, i: nat): int
    requires i < |content|
  {
    if QuoteAt(content, i) != Unquoted then 0 else if content[i] == '{' then 1 else if content[i] == '}' then -1 else 0
  }

  lemma DepthStep(content: string, p: nat, i: nat)
    requires OpensAt(content, p) && p < i < |content|
    ensures Depth(content, p, i + 1) == Depth(content, p, i) + Turn(content, i)
  {
    var s := content[p + 1..];
    QuoteInside(content, p, i);
    BalanceSnoc(s, Unquoted, i - p - 1);
    assert s[..i - p - 1] == content[p + 1..i] && s[..i - p] == content[p + 1..i + 1];
    assert s[i - p - 1] == content[i];
  }

  lemma DepthStart(content: string, p: nat)
    requires p < |content|
    ensures Depth(content, p, p + 1) == 0
  {
    assert content[p + 1..p + 1] == "";
  }

  lemma EnclosesStep(content: string, p: nat, i: nat)
    requires i < |content|
    ensures Encloses(content, p, i + 1) <==>
            if p == i then OpensAt(content, p) else Encloses(content, p, i) && Depth(content, p, i) + Turn(content, i) >= 0
    ensures Encloses(content, p, i) ==> p < i && Depth(content, p, i + 1) == Depth(content, p, i) + Turn(content, i)
  {
    hide Depth, OpensAt, Turn;
    if p == i {
      DepthStart(content, p);
    } else if p < i && OpensAt(content, p) {
      DepthStep(content, p, i);
    }
  }

  // ----- the open blocks as a list -----

  function OpenBlocks(content: string, i: nat): seq<nat>
    requires i <= |content|
  {
    if i == 0 then []
    else
      var blocks, turn := OpenBlocks(content, i - 1), Turn(content, i - 1);
      if turn == 1 then blocks + [i - 1] else if turn == -1 && blocks != [] then blocks[..|blocks| - 1] else blocks
  }

  ghost predicate IsOpenBlocks(content: string, i: nat, blocks: seq<nat>)
    requires i <= |content|
  {
    && (forall k :: 0 <= k < |blocks| ==> Encloses(content, blocks[k], i) && Depth(content, blocks[k], i) == |blocks| - 1 - k)
    && (forall j, k :: 0 <= j < k < |blocks| ==> blocks[j] < blocks[k])
    && (forall p: nat :: Encloses(content, p, i) ==> p in blocks)
  }

  lemma {:induction false} OpenBlocksExact(content: string, i: nat)
    requires i <= |content|
    ensures IsOpenBlocks(content, i, OpenBlocks(content, i))
  {
    if i > 0 {
      OpenBlocksExact(content, i - 1);
      var blocks := OpenBlocks(content, i - 1);
      hide Turn, Depth, OpenBlocks;
      BlocksStep(content, i - 1, blocks);
    }
  }

  lemma BlocksStep(content: string, i: nat, blocks: seq<nat>)
    requires i < |content| && IsOpenBlocks(content, i, blocks)
    ensures IsOpenBlocks(content, i + 1, if Turn(content, i) == 1 then blocks + [i]
                                         else if Turn(content, i) == -1 && blocks != [] then blocks[..|blocks| - 1] else blocks)
  {
    hide Depth, Encloses;
    var turn := Turn(content, i);
    var after := if turn == 1 then blocks + [i] else if turn == -1 && blocks != [] then blocks[..|blocks| - 1] else blocks;
    forall p: nat
      ensures Encloses(content, p, i + 1) <==>
              if p == i then OpensAt(content, p) else Encloses(content, p, i) && Depth(content, p, i) + turn >= 0
      ensures Encloses(content, p, i) ==> p < i && Depth(content, p, i + 1) == Depth(content, p, i) + turn
    {
      EnclosesStep(content, p, i);
    }
    DepthStart(content, i);
    assert OpensAt(content, i) <==> turn == 1;
    hide Turn, OpensAt;
    forall k | 0 <= k < |after|
      ensures Encloses(content, after[k], i + 1) && Depth(content, after[k], i + 1) == |after| - 1 - k
    {
      assert k < |blocks| ==> after[k] == blocks[k];
    }
    forall p: nat | Encloses(content, p, i + 1) ensures p in after {
      if p == i {
        assert after[|blocks|] == p;
      } else {
        assert Encloses(content, p, i) && p in blocks;
        var k :| 0 <= k < |blocks| && blocks[k] == p;
        assert after[k] == p;
      }
    }
  }

  // ----- headers -----

  /** The text before `p` is a whole word that ends at `k`, and white space. */
  predicate WordThenSpace(content: string, p: nat, word: string, k: nat)
    requires p <= |content|
  {
    && |word| <= k <= p && content[k - |word|..k] == word
    && (forall i :: k <= i < p ==> content[i] in {' ', '\t', '\n', '\r', '\U{000C}'})
    && (k == |word| ||
        var c := content[k - |word| - 1];
        !(c == '_' || '0' <= c <= '9' || 'a' <= c <= 'z' || 'A' <= c <= 'Z'))
  }

  /** The text before the brace ends in the whole word, white space aside. */
  ghost predicate HeaderIs(content: string, p: nat, word: string)
    requires p <= |content|
  {
    exists k: nat :: WordThenSpace(content, p, word, k)
  }

  lemma {:induction false} TrimEndIs(s: string)
    ensures TrimEnd(s) <= s && (TrimEnd(s) != "" ==> !IsSpace(TrimEnd(s)[|TrimEnd(s)| - 1]))
    ensures forall i :: |TrimEnd(s)| <= i < |s| ==> IsSpace(s[i])
    decreases |s|
  {
    if s != "" && IsSpace(s[|s| - 1]) {
      TrimEndIs(s[..|s| - 1]);
    }
  }

  lemma HeaderIff(content: string, p: nat, word: string)
    requires p <= |content| && word != "" && !IsSpace(word[|word| - 1])
    ensures HeaderIs(content, p, word) <==> EndsInWord(TrimEnd(content[..p]), word)
  {
    var s := TrimEnd(content[..p]);
    TrimEndIs(content[..p]);
    hide TrimEnd;
    assert s == content[..|s|];
    if k: nat :| WordThenSpace(content, p, word, k) {
      assert content[k - 1] == content[k - |word|..k][|word| - 1];
      assert |s| == k;
      assert s[|s| - |word|..] == content[k - |word|..k];
    }
    if EndsInWord(s, word) {
      assert s[|s| - |word|..] == content[|s| - |word|..|s|];
      assert WordThenSpace(content, p, word, |s|);
    }
  }

  lemma HeaderWords(content: string, p: nat)
    requires p <= |content|
    ensures HeaderIs(content, p, "dependencies") <==> EndsInWord(TrimEnd(content[..p]), DEPENDENCIES)
    ensures HeaderIs(content, p, "constraints") <==> EndsInWord(TrimEnd(content[..p]), CONSTRAINTS)
  {
    hide TrimEnd, EndsInWord, HeaderIs;
    HeaderIff(content, p, "dependencies");
    HeaderIff(content, p, "constraints");
  }

  predicate IsBrace(c: char) { c == '{' || c == '}' }

  lemma {:induction false} StartsAfterBrace(content: string, i: nat)
    requires i <= |content|
    ensures var start := StateAt(content, i).start; start == 0 || IsBrace(content[start - 1])
  {
    hide StateAt, NextState;
    if i == 0 {
      Start(content);
    } else {
      StartsAfterBrace(content, i - 1);
      StateStep(content, i - 1);
      NextStart(StateAt(content, i - 1), content, i - 1);
    }
  }

  lemma NextStart(st: State, content: string, index: nat)
    requires st.stack != [] && st.start <= index < |content|
    ensures var next := NextState(st, content, index);
            next.start == st.start || (next.start == index + 1 && IsBrace(content[index]))
  {
    hide Entered;
  }

  /** A header never reaches back over a brace, so it does not matter where the scanner started reading it. */
  lemma {:induction false} TrimmedFrom(content: string, lo: nat, hi: nat) returns (end: nat)
    requires lo <= hi <= |content| && (lo == 0 || IsBrace(content[lo - 1]))
    ensures lo <= end <= hi && TrimEnd(content[lo..hi]) == content[lo..end] && TrimEnd(content[..hi]) == content[..end]
    decreases hi
  {
    end := hi;
    if lo < hi && IsSpace(content[hi - 1]) {
      assert content[lo..hi][..hi - lo - 1] == content[lo..hi - 1] && content[..hi][..hi - 1] == content[..hi - 1];
      end := TrimmedFrom(content, lo, hi - 1);
    }
  }

  lemma SuffixFrom(content: string, lo: nat, end: nat, word: string)
    requires lo <= end <= |content| && (lo == 0 || IsBrace(content[lo - 1]))
    requires forall k :: 0 <= k < |word| ==> !IsBrace(word[k])
    ensures EndsInWord(content[lo..end], word) <==> EndsInWord(content[..end], word)
  {
    if |word| <= end - lo {
      assert content[lo..end][end - lo - |word|..] == content[end - |word|..end] == content[..end][end - |word|..];
    } else if |word| <= end {
      var k := |word| - (end - lo) - 1;
      assert content[..end][end - |word|..][k] == content[lo - 1];
    }
  }

  lemma HeadersHaveNoBrace()
    ensures forall k :: 0 <= k < |DEPENDENCIES| ==> !IsBrace(DEPENDENCIES[k])
    ensures forall k :: 0 <= k < |CONSTRAINTS| ==> !IsBrace(CONSTRAINTS[k])
  {
  }

  lemma EnteredFrom(content: string, lo: nat, hi: nat, context: Context)
    requires lo <= hi <= |content| && (lo == 0 || IsBrace(content[lo - 1]))
    ensures Entered(context, content[lo..hi]) == Entered(context, content[..hi])
  {
    HeadersHaveNoBrace();
    hide EndsInWord, TrimEnd;
    var end := TrimmedFrom(content, lo, hi);
    SuffixFrom(content, lo, end, DEPENDENCIES);
    SuffixFrom(content, lo, end, CONSTRAINTS);
  }

  // ----- the stack is the list of open blocks -----

  /** Above the bottom the stack holds one context for each open block, entered by the block's header. */
  ghost predicate Mirrors(content: string, stack: seq<Context>, blocks: seq<nat>) {
    && |stack| == |blocks| + 1 && stack[0] == Outside
    && forall k :: 0 <= k < |blocks| ==> blocks[k] <= |content| && stack[k + 1] == Entered(stack[k], content[..blocks[k]])
  }

  lemma {:induction false} StackMirrorsBlocks(content: string, i: nat)
    requires i <= |content|
    ensures Mirrors(content, StateAt(content, i).stack, OpenBlocks(content, i))
  {
    if i == 0 {
      Start(content);
    } else {
      StackMirrorsBlocks(content, i - 1);
      StateStep(content, i - 1);
      QuoteIsState(content, i - 1);
      StartsAfterBrace(content, i - 1);
      MirrorStep(content, StateAt(content, i - 1), i - 1, OpenBlocks(content, i - 1));
      hide StateAt, NextState;
    }
  }

  lemma MirrorStep(content: string, st: State, index: nat, blocks: seq<nat>)
    requires st.stack != [] && st.start <= index < |content| && st.quote == QuoteAt(content, index)
    requires Mirrors(content, st.stack, blocks) && (st.start == 0 || IsBrace(content[st.start - 1]))
    ensures Mirrors(content, NextState(st, content, index).stack,
                    if Turn(content, index) == 1 then blocks + [index]
                    else if Turn(content, index) == -1 && blocks != [] then blocks[..|blocks| - 1] else blocks)
  {
    EnteredFrom(content, st.start, index, st.Top());
    hide Entered, QuoteAt;
  }

  /** The context that the headers of the enclosing blocks determine: inside a `dependencies` block, and in
      constraints when a `constraints` block is nested in it. */
  ghost function BlockContext(content: string, i: nat): Context
    requires i <= |content|
  {
    if exists p: nat, q: nat :: Encloses(content, p, i) && Encloses(content, q, i) && p < q
                                && HeaderIs(content, p, "dependencies") && HeaderIs(content, q, "constraints") then Constraint
    else if exists p: nat :: Encloses(content, p, i) && HeaderIs(content, p, "dependencies") then Direct
    else Outside
  }

  lemma {:induction false} ChainContext(content: string, stack: seq<Context>, blocks: seq<nat>, n: nat)
    requires Mirrors(content, stack, blocks) && n <= |blocks|
    ensures stack[n] != Outside <==> exists j :: 0 <= j < n && HeaderIs(content, blocks[j], "dependencies")
    ensures stack[n] == Constraint <==>
            exists j, k :: 0 <= j < k < n && HeaderIs(content, blocks[j], "dependencies") && HeaderIs(content, blocks[k], "constraints")
  {
    hide EndsInWord, TrimEnd, HeaderIs;
    if n > 0 {
      HeaderWords(content, blocks[n - 1]);
      ChainContext(content, stack, blocks, n - 1);
      assert stack[n] == Entered(stack[n - 1], content[..blocks[n - 1]]);
    }
  }

  /** The scanner's context is the one of the enclosing blocks. */
  lemma ContextIsBlock(content: string, i: nat)
    requires i <= |content|
    ensures ContextAt(content, i) == BlockContext(content, i)
  {
    var stack, blocks := StateAt(content, i).stack, OpenBlocks(content, i);
    StackMirrorsBlocks(content, i);
    OpenBlocksExact(content, i);
    ChainContext(content, stack, blocks, |blocks|);
    hide StateAt, OpenBlocks, Mirrors;
    DependenciesIff(content, i, blocks);
    ConstraintsIff(content, i, blocks);
    hide IsOpenBlocks, Encloses, HeaderIs;
  }

  lemma DependenciesIff(content: string, i: nat, blocks: seq<nat>)
    requires i <= |content| && IsOpenBlocks(content, i, blocks)
    ensures (exists p: nat :: Encloses(content, p, i) && HeaderIs(content, p, "dependencies")) <==>
            exists j :: 0 <= j < |blocks| && blocks[j] <= |content| && HeaderIs(content, blocks[j], "dependencies")
  {
    hide HeaderIs, Depth;
    if p: nat :| Encloses(content, p, i) && HeaderIs(content, p, "dependencies") {
      assert p in blocks;
    }
  }

  lemma ConstraintsIff(content: string, i: nat, blocks: seq<nat>)
    requires i <= |content| && IsOpenBlocks(content, i, blocks)
    ensures (exists p: nat, q: nat :: Encloses(content, p, i) && Encloses(content, q, i) && p < q
                                      && HeaderIs(content, p, "dependencies") && HeaderIs(content, q, "constraints")) <==>
            exists j, k :: 0 <= j < k < |blocks| && blocks[j] <= |content| && blocks[k] <= |content|
                           && HeaderIs(content, blocks[j], "dependencies") && HeaderIs(content, blocks[k], "constraints")
  {
    hide HeaderIs, Depth;
    if p: nat, q: nat :| (Encloses(content, p, i) && Encloses(content, q, i) && p < q
                          && HeaderIs(content, p, "dependencies") && HeaderIs(content, q, "constraints")) {
      var j :| 0 <= j < |blocks| && blocks[j] == p;
      var k :| 0 <= k < |blocks| && blocks[k] == q;
      assert j < k;
    }
  }

  /** The segments of a build cover exactly the positions that lie, with the position after them, in one
      dependency or constraint context of the enclosing headers. */
  lemma InsideIsBlock(content: string, p: nat, context: Context)
    requires p < |content|
    ensures Inside(content, p, context) <==>
            context != Outside && BlockContext(content, p) == context && BlockContext(content, p + 1) == context
  {
    ContextIsBlock(content, p);
    ContextIsBlock(content, p + 1);
    hide ContextAt, BlockContext;
  }

  /** A build is rejected exactly when a `dependencies` block is still open at its end. */
  lemma ClosedIff(content: string)
    ensures Closed(content) <==>
            !exists p: nat :: Encloses(content, p, |content|) && HeaderIs(content, p, "dependencies")
  {
    var stack, blocks := StateAt(content, |content|).stack, OpenBlocks(content, |content|);
    StackMirrorsBlocks(content, |content|);
    OpenBlocksExact(content, |content|);
    DependenciesIff(content, |content|, blocks);
    hide StateAt, OpenBlocks, IsOpenBlocks, Encloses, HeaderIs, Depth;
    if Closed(content) {
      ChainContext(content, stack, blocks, |blocks|);
      assert stack[|blocks|] in stack;
    } else {
      var c :| c in stack && c != Outside;
      var n :| 0 <= n < |stack| && stack[n] == c;
      ChainContext(content, stack, blocks, n);
    }
  }

  // ----- the scanner -----

  /** Fails exactly when a `dependencies` block is open at the end; the segments cover exactly the positions that lie,
      with the position after them, in one dependency or constraint context. */
  method GradleDependencySegments(content: string) returns (r: Option<seq<Segment>>, ghost spans: seq<Span>)
    ensures r.None? <==> exists p: nat :: Encloses(content, p, |content|) && HeaderIs(content, p, "dependencies")
    ensures r.Some? ==> Matches(content, r.value, spans) && Separated(spans)
    ensures r.Some? ==> forall p, c :: 0 <= p < |content| ==>
              (Covered(spans, p, c) <==> c != Outside && BlockContext(content, p) == c && BlockContext(content, p + 1) == c)
  {
    hide Progress, Covered, Matches, Separated, Inside, Entered, StateAt, BlockContext, Encloses, HeaderIs;
    ClosedIff(content);
    var segments: seq<Segment> := [];
    spans := [];
    var stack, start, quote := [Outside], 0, Unquoted;
    Start(content);
    for index := 0 to |content|
      invariant StateAt(content, index) == State(stack, start, quote)
      invariant Progress(content, index, segments, spans)
    {
      var current := content[index];
      StateStep(content, index);
      if quote != Unquoted {
        if quote.escaped {
          quote := quote.(escaped := false);
        } else if current == '\\' {
          quote := quote.(escaped := true);
        } else if current == quote.mark {
          quote := Unquoted;
        }
        SameContext(content, index, segments, spans);
        continue;
      }
      if current == '"' || current == '\'' {
        quote := InQuotes(current, false);
        SameContext(content, index, segments, spans);
        continue;
      }
      if current != '{' && current != '}' {
        SameContext(content, index, segments, spans);
        continue;
      }
      var context := stack[|stack| - 1];
      var nextContext := context;
      if current == '{' {
        nextContext := Entered(context, content[start..index]);
        stack := stack + [nextContext];
      } else if |stack| > 1 {
        stack := stack[..|stack| - 1];
        nextContext := stack[|stack| - 1];
      }
      if context != nextContext {
        NewContext(content, index, segments, spans);
        spans := spans + EndedSpan(context, start, index);
        segments := segments + Ended(context, content, start, index);
        start := index + 1;
      } else {
        SameContext(content, index, segments, spans);
      }
    }
    for n := 0 to |stack|
      invariant forall k :: 0 <= k < n ==> stack[k] == Outside
    {
      if stack[n] != Outside {
        assert stack[n] in stack;
        return None, [];
      }
    }
    Finish(content, segments, spans);
    forall p, c | 0 <= p < |content|
      ensures Covered(spans, p, c) <==> c != Outside && BlockContext(content, p) == c && BlockContext(content, p + 1) == c
    {
      InsideIsBlock(content, p, c);
    }
    r := Some(segments);
  }

  // ----- partners -----

  /** Inside a block the stack only grows on top of what it was at the block's start. */
  lemma {:induction false} BlockGrows(content: string, p: nat, i: nat)
    requires Encloses(content, p, i)
    ensures var inside, stack := StateAt(content, p + 1).stack, StateAt(content, i).stack;
            |stack| == |inside| + Depth(content, p, i) && stack[..|inside|] == inside
    decreases i
  {
    hide StateAt, NextState, Depth;
    if i == p + 1 {
      DepthStart(content, p);
    } else {
      assert Depth(content, p, i) >= 0;
      BlockGrows(content, p, i - 1);
      DepthStep(content, p, i - 1);
      StateStep(content, i - 1);
      QuoteIsState(content, i - 1);
      StackStep(StateAt(content, i - 1), content, i - 1);
      hide Turn, Encloses;
    }
  }

  lemma StackStep(st: State, content: string, index: nat)
    requires st.stack != [] && st.start <= index < |content| && st.quote == QuoteAt(content, index)
    ensures var next := NextState(st, content, index).stack;
            if Turn(content, index) == 1 then |next| == |st.stack| + 1 && next[..|st.stack|] == st.stack
            else if Turn(content, index) == -1 && |st.stack| > 1 then next == st.stack[..|st.stack| - 1]
            else next == st.stack
  {
    hide Entered, QuoteAt;
  }

  /** The closing brace that the brace matcher finds takes the stack back to what it was before the opening one. */
  lemma PartnerRestores(content: string, p: nat, q: nat)
    requires OpensAt(content, p) && ClosesAt(content, p + 1, q)
    ensures StateAt(content, q + 1).stack == StateAt(content, p).stack
    ensures forall i :: p < i <= q ==> StateAt(content, p).stack < StateAt(content, i).stack
  {
    forall n | p < n <= q + 1 ensures Depth(content, p, n) == Balance(content[p + 1..][..n - p - 1], Unquoted) {
      assert content[p + 1..][..n - p - 1] == content[p + 1..n];
    }
    forall i | p < i <= q ensures Encloses(content, p, i) {}
    QuoteInside(content, p, q);
    assert content[p + 1..][..q - p - 1] == content[p + 1..q];
    DepthStep(content, p, q);
    assert Turn(content, q) == -1 && Depth(content, p, q) == 0;
    OpeningStack(content, p);
    hide StateAt, NextState, Depth, Turn, OpensAt, ClosesAt;
    forall i | p < i <= q ensures StateAt(content, p).stack < StateAt(content, i).stack {
      BlockGrows(content, p, i);
      GrowsOn(StateAt(content, p).stack, StateAt(content, p + 1).stack, StateAt(content, i).stack);
    }
    BlockGrows(content, p, q);
    StateStep(content, q);
    QuoteIsState(content, q);
    StackStep(StateAt(content, q), content, q);
  }

  lemma OpeningStack(content: string, p: nat)
    requires OpensAt(content, p)
    ensures var before, inside := StateAt(content, p).stack, StateAt(content, p + 1).stack;
            |inside| == |before| + 1 && inside[..|before|] == before
  {
    hide StateAt, NextState;
    StateStep(content, p);
    QuoteIsState(content, p);
    StackStep(StateAt(content, p), content, p);
  }

  lemma GrowsOn<T>(a: seq<T>, b: seq<T>, c: seq<T>)
    requires |b| == |a| + 1 && b[..|a|] == a && |b| <= |c| && c[..|b|] == b
    ensures a < c
  {
    assert c[..|a|] == c[..|b|][..|a|] == a;
  }
}
