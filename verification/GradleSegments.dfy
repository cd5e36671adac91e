/** Cutting a Gradle build into the stretches that lie in dependency and constraint blocks. */
module GradleSegments {
  import opened Text
  import opened ExecutableDsl

  datatype Context = Outside | Direct | Constraint {
    function Level(): nat { match this case Outside => 0 case Direct => 1 case Constraint => 2 }
  }

  datatype Segment = Segment(text: string, context: Context)

  // ----- block headers -----

  predicate IsSpace(c: char) { c == ' ' || c == '\t' || c == '\n' || c == '\r' || c == '\U{000C}' }

  predicate IsWordChar(c: char) { c == '_' || '0' <= c <= '9' || 'a' <= c <= 'z' || 'A' <= c <= 'Z' }

  function TrimEnd(s: string): string {
    if s != "" && IsSpace(s[|s| - 1]) then TrimEnd(s[..|s| - 1]) else s
  }

  /** The text ends in the whole word. */
  predicate EndsInWord(s: string, word: string) {
    HasSuffix(s, word) && (|s| > |word| ==> !IsWordChar(s[|s| - |word| - 1]))
  }

  const DEPENDENCIES := "dependencies"
  const CONSTRAINTS := "constraints"

  /** The context inside a block opened after `before`: `dependencies` counts only outside, `constraints`
      only inside a dependencies block, anything else keeps the context. */
  function Entered(context: Context, before: string): Context {
    if context == Outside then if EndsInWord(TrimEnd(before), DEPENDENCIES) then Direct else Outside
    else if EndsInWord(TrimEnd(before), CONSTRAINTS) then Constraint
    else context
  }

  // ----- the scanner's state -----

  /** `start` is the position after the last brace that switched the context. */
  datatype State = State(stack: seq<Context>, start: nat, quote: Quote) {
    function Top(): Context
      requires stack != []
    {
      stack[|stack| - 1]
    }
  }

  function Switched(st: State, stack: seq<Context>, index: nat): State
    requires st.stack != [] && stack != []
  {
    State(stack, if stack[|stack| - 1] == st.Top() then st.start else index + 1, Unquoted)
  }

  /** The effect of the character at `index`. */
  function NextState(st: State, content: string, index: nat): (next: State)
    requires st.stack != [] && st.start <= index < |content|
    ensures next.stack != [] && next.start <= index + 1
  {
    var c := content[index];
    if st.quote != Unquoted || (c != '{' && c != '}') then st.(quote := AfterChar(st.quote, c))
    else if c == '{' then Switched(st, st.stack + [Entered(st.Top(), content[st.start..index])], index)
    else if |st.stack| > 1 then Switched(st, st.stack[..|st.stack| - 1], index)
    else st
  }

  function StateAt(content: string, i: nat): (st: State)
    requires i <= |content|
    ensures st.stack != [] && st.start <= i
  {
    if i == 0 then State([Outside], 0, Unquoted) else NextState(StateAt(content, i - 1), content, i - 1)
  }

  lemma StateStep(content: string, i: nat)
    requires i < |content|
    ensures StateAt(content, i + 1) == NextState(StateAt(content, i), content, i)
  {
  }

  function ContextAt(content: string, i: nat): Context
    requires i <= |content|
  {
    StateAt(content, i).Top()
  }

  /** The character is inside a dependency or constraint block and is not a brace that enters or leaves it. */
  predicate Inside(content: string, p: nat, context: Context)
    requires p < |content|
  {
    context != Outside && ContextAt(content, p) == context && ContextAt(content, p + 1) == context
  }

  predicate Closed(content: string) { forall c :: c in StateAt(content, |content|).stack ==> c == Outside }

  datatype Span = Span(lo: nat, hi: nat, context: Context)

  ghost predicate Covered(spans: seq<Span>, p: nat, context: Context) {
    exists k :: 0 <= k < |spans| && spans[k].lo <= p < spans[k].hi && spans[k].context == context
  }

  /** Spans in order, a switching brace between any two. */
  ghost predicate Separated(spans: seq<Span>) {
    forall j, k :: 0 <= j < k < |spans| ==> spans[j].hi < spans[k].lo
  }

  ghost predicate Matches(content: string, segments: seq<Segment>, spans: seq<Span>) {
    && |segments| == |spans|
    && forall k :: 0 <= k < |spans| ==>
         spans[k].lo <= spans[k].hi <= |content| && segments[k] == Segment(content[spans[k].lo..spans[k].hi], spans[k].context)
  }

  /** The stretches found so far: exactly the inside positions before the last switch. */
  ghost predicate Progress(content: string, i: nat, segments: seq<Segment>, spans: seq<Span>)
    requires i <= |content|
  {
    var st := StateAt(content, i);
    && Matches(content, segments, spans) && Separated(spans)
    && (forall k :: 0 <= k < |spans| ==> spans[k].hi < st.start)
    && (forall p, c :: 0 <= p < st.start ==> (Covered(spans, p, c) <==> Inside(content, p, c)))
    && (forall p :: st.start <= p <= i ==> ContextAt(content, p) == st.Top())
  }

  /** A character that keeps the context keeps the stretches. */
  lemma SameContext(content: string, i: nat, segments: seq<Segment>, spans: seq<Span>)
    requires i < |content| && Progress(content, i, segments, spans)
    requires StateAt(content, i + 1).start == StateAt(content, i).start && ContextAt(content, i + 1) == ContextAt(content, i)
    ensures Progress(content, i + 1, segments, spans)
  {
    hide StateAt, Inside, Covered, Matches, Separated;
  }

  /** The stretch that ends at a switching brace, unless it lies outside all blocks. */
  function Ended(context: Context, content: string, lo: nat, hi: nat): seq<Segment>
    requires lo <= hi <= |content|
  {
    if context == Outside then [] else [Segment(content[lo..hi], context)]
  }

  function EndedSpan(context: Context, lo: nat, hi: nat): seq<Span> {
    if context == Outside then [] else [Span(lo, hi, context)]
  }

  lemma CoveredByMore(spans: seq<Span>, more: seq<Span>, p: nat, c: Context)
    ensures Covered(spans + more, p, c) <==> Covered(spans, p, c) || Covered(more, p, c)
  {
    var all := spans + more;
    if Covered(spans, p, c) {
      var k :| 0 <= k < |spans| && spans[k].lo <= p < spans[k].hi && spans[k].context == c;
      assert all[k] == spans[k];
    }
    if Covered(more, p, c) {
      var k :| 0 <= k < |more| && more[k].lo <= p < more[k].hi && more[k].context == c;
      assert all[|spans| + k] == more[k];
    }
  }

  lemma NewContext(content: string, i: nat, segments: seq<Segment>, spans: seq<Span>)
    requires i < |content| && Progress(content, i, segments, spans)
    requires StateAt(content, i + 1).start == i + 1 && ContextAt(content, i + 1) != ContextAt(content, i)
    ensures var st := StateAt(content, i);
            Progress(content, i + 1, segments + Ended(st.Top(), content, st.start, i), spans + EndedSpan(st.Top(), st.start, i))
  {
    hide StateAt;
    var st := StateAt(content, i);
    var more := EndedSpan(st.Top(), st.start, i);
    forall p: nat, c | p < i + 1 ensures Covered(spans + more, p, c) <==> Inside(content, p, c) {
      CoveredByMore(spans, more, p, c);
      if p < st.start {
        assert !Covered(more, p, c);
      } else {
        assert !Covered(spans, p, c);
        assert ContextAt(content, p) == st.Top();
        if p < i {
          assert ContextAt(content, p + 1) == st.Top();
          assert Covered(more, p, c) <==> c == st.Top() && c != Outside by {
            if st.Top() != Outside { assert more[0].lo <= p < more[0].hi; }
          }
        } else {
          assert !Covered(more, p, c);
        }
      }
    }
  }

  lemma Start(content: string)
    ensures StateAt(content, 0) == State([Outside], 0, Unquoted) && Progress(content, 0, [], [])
  {
  }

  lemma Finish(content: string, segments: seq<Segment>, spans: seq<Span>)
    requires Progress(content, |content|, segments, spans) && Closed(content)
    ensures Matches(content, segments, spans) && Separated(spans)
    ensures forall p, c :: 0 <= p < |content| ==> (Covered(spans, p, c) <==> Inside(content, p, c))
  {
    hide StateAt;
    var st := StateAt(content, |content|);
    forall p, c | 0 <= p < |content| ensures Covered(spans, p, c) <==> Inside(content, p, c) {
      if p >= st.start {
        assert ContextAt(content, p) == st.Top();
        assert st.Top() in st.stack;
        assert !Covered(spans, p, c);
      }
    }
  }

  // ----- the context stack -----

  /** Outside at the bottom, and each block at most one level deeper than the one around it. */
  ghost predicate Layered(stack: seq<Context>) {
    && stack != [] && stack[0] == Outside
    && forall k :: 0 <= k < |stack| - 1 ==> stack[k].Level() <= stack[k + 1].Level() <= stack[k].Level() + 1
  }

  lemma EnteredLevel(context: Context, before: string)
    ensures context.Level() <= Entered(context, before).Level() <= context.Level() + 1
  {
    hide EndsInWord, TrimEnd;
  }

  lemma NextLayered(st: State, content: string, index: nat)
    requires Layered(st.stack) && st.start <= index < |content|
    ensures Layered(NextState(st, content, index).stack)
  {
    hide Entered;
    EnteredLevel(st.Top(), content[st.start..index]);
  }

  /** At every position the stack never falls: constraints lie in dependencies, dependencies lie outside. */
  lemma {:induction false} StackLayered(content: string, i: nat)
    requires i <= |content|
    ensures Layered(StateAt(content, i).stack)
  {
    hide StateAt, Entered;
    if i == 0 {
      Start(content);
    } else {
      StackLayered(content, i - 1);
      StateStep(content, i - 1);
      var st := StateAt(content, i - 1);
      hide NextState;
      NextLayered(st, content, i - 1);
    }
  }

  // ----- quoted text never counts -----

  lemma QuoteStep(content: string, i: nat)
    requires i < |content|
    ensures StateAt(content, i + 1).quote == AfterChar(StateAt(content, i).quote, content[i])
  {
    StateStep(content, i);
    hide StateAt, Entered;
  }

  lemma {:induction false} QuoteIsState(content: string, i: nat)
    requires i <= |content|
    ensures StateAt(content, i).quote == AfterText(Unquoted, content[..i])
  {
    if i > 0 {
      QuoteIsState(content, i - 1);
      QuoteStep(content, i - 1);
      hide StateAt;
      AfterTextSnoc(Unquoted, content, i - 1);
    }
  }

  /** Two builds that differ only in characters inside quotes, and not in where the quotes end. */
  ghost predicate SameOutsideQuotes(a: string, b: string) {
    && |a| == |b|
    && forall i :: 0 <= i < |a| ==> SameAt(a, b, i)
  }

  predicate SameAt(a: string, b: string, i: nat)
    requires i < |a| == |b|
  {
    var q := AfterText(Unquoted, a[..i]);
    a[i] == b[i] || (q != Unquoted && AfterChar(q, a[i]) == AfterChar(q, b[i]))
  }

  lemma {:induction false} QuotesHaveMarks(content: string, i: nat)
    requires i <= |content|
    ensures var q := StateAt(content, i).quote; q != Unquoted ==> IsMark(q.mark)
  {
    if i > 0 {
      QuotesHaveMarks(content, i - 1);
      QuoteStep(content, i - 1);
      hide StateAt;
    }
  }

  /** Going back from a position outside quotes over anything but a quote mark stays outside. */
  lemma BackOutside(a: string, b: string, i: nat)
    requires SameOutsideQuotes(a, b) && 0 < i <= |a| && StateAt(a, i).quote == Unquoted
    ensures a[i - 1] == b[i - 1]
    ensures !IsMark(a[i - 1]) ==> StateAt(a, i - 1).quote == Unquoted
  {
    QuoteStep(a, i - 1);
    QuotesHaveMarks(a, i - 1);
    QuoteIsState(a, i - 1);
    hide StateAt, AfterText;
    assert SameAt(a, b, i - 1);
    hide SameOutsideQuotes;
  }

  lemma {:induction false} TrimmedSame(a: string, b: string, lo: nat, hi: nat) returns (end: nat)
    requires SameOutsideQuotes(a, b) && lo <= hi <= |a| && StateAt(a, hi).quote == Unquoted
    ensures lo <= end <= hi && StateAt(a, end).quote == Unquoted
    ensures TrimEnd(a[lo..hi]) == a[lo..end] && TrimEnd(b[lo..hi]) == b[lo..end]
    decreases hi
  {
    hide StateAt;
    end := hi;
    if lo < hi {
      BackOutside(a, b, hi);
      if IsSpace(a[hi - 1]) {
        assert a[lo..hi][..hi - lo - 1] == a[lo..hi - 1] && b[lo..hi][..hi - lo - 1] == b[lo..hi - 1];
        end := TrimmedSame(a, b, lo, hi - 1);
      }
    }
  }

  lemma {:induction false} SuffixSame(a: string, b: string, lo: nat, hi: nat, word: string)
    requires SameOutsideQuotes(a, b) && lo <= hi <= |a| && StateAt(a, hi).quote == Unquoted
    requires forall k :: 0 <= k < |word| ==> !IsMark(word[k])
    ensures HasSuffix(a[lo..hi], word) <==> HasSuffix(b[lo..hi], word)
    ensures HasSuffix(a[lo..hi], word) ==> |word| <= hi && StateAt(a, hi - |word|).quote == Unquoted
    decreases |word|
  {
    hide StateAt;
    if word != "" && lo < hi {
      var init, last := word[..|word| - 1], word[|word| - 1];
      BackOutside(a, b, hi);
      SuffixStep(a, lo, hi, word);
      SuffixStep(b, lo, hi, word);
      if a[hi - 1] == last {
        SuffixSame(a, b, lo, hi - 1, init);
      }
    }
  }

  lemma SuffixStep(s: string, lo: nat, hi: nat, word: string)
    requires lo < hi <= |s| && word != ""
    ensures HasSuffix(s[lo..hi], word) <==>
            s[hi - 1] == word[|word| - 1] && HasSuffix(s[lo..hi - 1], word[..|word| - 1])
  {
    var init := word[..|word| - 1];
    assert word == init + [word[|word| - 1]];
    if |word| <= hi - lo {
      assert s[lo..hi][hi - lo - |word|..] == s[hi - |word|..hi];
      assert s[lo..hi - 1][hi - 1 - lo - |init|..] == s[hi - |word|..hi - 1];
      assert s[hi - |word|..hi] == s[hi - |word|..hi - 1] + [s[hi - 1]];
    }
  }

  lemma WordSame(a: string, b: string, lo: nat, hi: nat, word: string)
    requires SameOutsideQuotes(a, b) && lo <= hi <= |a| && StateAt(a, hi).quote == Unquoted
    requires forall k :: 0 <= k < |word| ==> !IsMark(word[k])
    ensures EndsInWord(TrimEnd(a[lo..hi]), word) <==> EndsInWord(TrimEnd(b[lo..hi]), word)
  {
    hide StateAt, TrimEnd, HasSuffix;
    var end := TrimmedSame(a, b, lo, hi);
    SuffixSame(a, b, lo, end, word);
    if HasSuffix(a[lo..end], word) {
      BoundarySame(a, b, lo, end, word);
    }
    hide SameOutsideQuotes;
  }

  lemma BoundarySame(a: string, b: string, lo: nat, end: nat, word: string)
    requires SameOutsideQuotes(a, b) && lo <= end <= |a|
    requires |word| <= end && StateAt(a, end - |word|).quote == Unquoted
    ensures end - lo > |word| ==> a[lo..end][end - lo - |word| - 1] == b[lo..end][end - lo - |word| - 1]
  {
    hide StateAt, SameAt;
    assert |a| == |b|;
    if end - lo > |word| {
      BackOutside(a, b, end - |word|);
      hide SameOutsideQuotes;
      SliceAt(a, lo, end, end - lo - |word| - 1);
      SliceAt(b, lo, end, end - lo - |word| - 1);
    }
  }

  lemma SliceAt(s: string, lo: nat, hi: nat, k: nat)
    requires lo + k < hi <= |s|
    ensures s[lo..hi][k] == s[lo + k]
  {
  }

  /** Braces and keywords inside strings change nothing: the state is the same at every position. */
  lemma {:induction false} QuotedTextIrrelevant(a: string, b: string, i: nat)
    requires SameOutsideQuotes(a, b) && i <= |a|
    ensures StateAt(a, i) == StateAt(b, i)
    decreases i
  {
    hide StateAt;
    if i == 0 {
      Start(a);
      Start(b);
    } else {
      QuotedTextIrrelevant(a, b, i - 1);
      StateStep(a, i - 1);
      StateStep(b, i - 1);
      NextSame(a, b, i - 1);
    }
  }

  lemma NextSame(a: string, b: string, index: nat)
    requires SameOutsideQuotes(a, b) && index < |a| && StateAt(a, index) == StateAt(b, index)
    ensures NextState(StateAt(a, index), a, index) == NextState(StateAt(b, index), b, index)
  {
    QuoteIsState(a, index);
    hide StateAt, AfterText;
    var st := StateAt(a, index);
    assert SameAt(a, b, index);
    if st.quote == Unquoted {
      EnteredSame(a, b, st.start, index, st.Top());
    }
    hide SameOutsideQuotes, Entered;
  }

  lemma EnteredSame(a: string, b: string, lo: nat, hi: nat, context: Context)
    requires SameOutsideQuotes(a, b) && lo <= hi <= |a| && StateAt(a, hi).quote == Unquoted
    ensures Entered(context, a[lo..hi]) == Entered(context, b[lo..hi])
  {
    KeywordsUnmarked();
    hide StateAt, EndsInWord, TrimEnd;
    WordSame(a, b, lo, hi, DEPENDENCIES);
    WordSame(a, b, lo, hi, CONSTRAINTS);
    hide SameOutsideQuotes;
  }

  lemma KeywordsUnmarked()
    ensures forall k :: 0 <= k < |DEPENDENCIES| ==> !IsMark(DEPENDENCIES[k])
    ensures forall k :: 0 <= k < |CONSTRAINTS| ==> !IsMark(CONSTRAINTS[k])
  {
  }

  lemma SameSegments(a: string, b: string, p: nat, c: Context)
    requires SameOutsideQuotes(a, b) && p < |a|
    ensures Inside(a, p, c) == Inside(b, p, c) && Closed(a) == Closed(b)
  {
    hide StateAt;
    QuotedTextIrrelevant(a, b, p);
    QuotedTextIrrelevant(a, b, p + 1);
    QuotedTextIrrelevant(a, b, |a|);
  }
}
