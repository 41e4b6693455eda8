/** `_parse_answer` of the reasoning node: a `re.search` for
    `(?is)(?:thoughts?|analysis)\s*[:\-]\s*(.*?)\n(?:response|answer|final)\s*[:\-]\s*(.*)`
    followed by stripping both groups. The search is modelled in the order Python's
    backtracking engine tries things: the leftmost start, then the keyword
    alternatives in order, then the lazy thought group as short as possible, giving
    whitespace back to it only when no longer choice works. The keyword lists are a
    parameter; `Pattern` holds the node's. */
module AnswerSplit {
  import opened Wrappers
  import opened Text

  /** The alternatives before the thought group and before the answer group. */
  datatype Keywords = Keywords(thoughts: seq<string>, answers: seq<string>)

  const Pattern: Keywords := Keywords(["thoughts", "thought", "analysis"], ["response", "answer", "final"])

  /** With IGNORECASE a lower-case pattern letter matches both its ASCII cases; `i`
      also matches U+0130 and U+0131, and `s` also U+017F. */
  predicate FoldMatches(c: char, k: char) {
    || c == k
    || ('a' <= k <= 'z' && c as int == k as int - 32)
    || (k == 'i' && (c as int == 0x130 || c as int == 0x131))
    || (k == 's' && c as int == 0x17F)
  }

  /** The keyword `w` matches `t` at `i`, ignoring case. */
  predicate WordAt(t: string, i: nat, w: string) {
    i + |w| <= |t| && forall k :: 0 <= k < |w| ==> FoldMatches(t[i + k], w[k])
  }

  predicate IsSep(c: char) {
    c == ':' || c == '-'
  }

  /** `t[i..j]` is all whitespace. */
  predicate SpacesBetween(t: string, i: nat, j: nat) {
    i <= j <= |t| && forall k :: i <= k < j ==> IsSpace(t[k])
  }

  /** `\s*[:\-]` matches exactly `t[j..e]`. */
  predicate SepSpan(t: string, j: nat, e: nat) {
    j < e <= |t| && IsSep(t[e - 1]) && SpacesBetween(t, j, e - 1)
  }

  /** Greedy `\s*` from `i`: the end of the whitespace run. */
  function SpaceEnd(t: string, i: nat): (e: nat)
    requires i <= |t|
    ensures SpacesBetween(t, i, e)
    ensures e == |t| || !IsSpace(t[e])
    decreases |t| - i
  {
    if i < |t| && IsSpace(t[i]) then SpaceEnd(t, i + 1) else i
  }

  /** Greedy whitespace can stop only at the first non-space. */
  lemma SpaceEndIsFirst(t: string, i: nat, j: nat)
    requires i <= |t| && SpacesBetween(t, i, j)
    ensures j <= SpaceEnd(t, i)
  {
  }

  /** `\s*[:\-]` at `j`: the position after the separator. */
  function SepEnd(t: string, j: nat): (r: Option<nat>)
    requires j <= |t|
    ensures r.Some? ==> SepSpan(t, j, r.value)
  {
    var e := SpaceEnd(t, j);
    if e < |t| && IsSep(t[e]) then Some(e + 1) else None
  }

  /** Backtracking cannot help the separator: a separator is never whitespace, so
      the only span `\s*[:\-]` can match is the one `SepEnd` finds. */
  lemma SepEndComplete(t: string, j: nat, e: nat)
    requires j <= |t| && SepSpan(t, j, e)
    ensures SepEnd(t, j) == Some(e)
  {
    SpaceEndIsFirst(t, j, e - 1);
  }

  /** Keyword then separator, as the pattern writes them: `w` at `p`, then `\s*[:\-]` ending at `e`. */
  predicate HeadVia(t: string, p: nat, w: string, e: nat) {
    WordAt(t, p, w) && SepSpan(t, p + |w|, e)
  }

  /** `(?:response|answer|final)\s*[:\-]` at `i`: the end of the first alternative that matches. */
  function AnswerWordFrom(t: string, i: nat, words: seq<string>): (r: Option<nat>)
    requires i <= |t|
    ensures r.Some? ==> exists w :: w in words && HeadVia(t, i, w, r.value)
    decreases |words|
  {
    if words == [] then None
    else if WordAt(t, i, words[0]) && SepEnd(t, i + |words[0]|).Some? then
      assert HeadVia(t, i, words[0], SepEnd(t, i + |words[0]|).value);
      SepEnd(t, i + |words[0]|)
    else
      var r := AnswerWordFrom(t, i, words[1..]);
      assert r.Some? ==> exists w :: w in words && HeadVia(t, i, w, r.value);
      r
  }

  /** Whenever some alternative matches, the search over the alternatives finds one. */
  lemma {:induction false} AnswerWordFromComplete(t: string, i: nat, words: seq<string>, w: string, e: nat)
    requires i <= |t| && w in words && HeadVia(t, i, w, e)
    ensures AnswerWordFrom(t, i, words).Some?
    decreases |words|
  {
    if w == words[0] {
      SepEndComplete(t, i + |w|, e);
    } else if !(WordAt(t, i, words[0]) && SepEnd(t, i + |words[0]|).Some?) {
      AnswerWordFromComplete(t, i, words[1..], w, e);
    }
  }

  /** `\n(?:response|answer|final)\s*[:\-]\s*` matches at `h` and the answer group may
      start at `g2`. */
  ghost predicate AnswerHead(t: string, kw: Keywords, h: nat, g2: nat) {
    && h < |t| && t[h] == '\n'
    && exists w: string, e: nat {:trigger HeadVia(t, h + 1, w, e)} :: w in kw.answers && HeadVia(t, h + 1, w, e) && SpacesBetween(t, e, g2)
  }

  /** The answer part of the pattern at `h`: where its greedy group starts. */
  function AnswerAt(t: string, kw: Keywords, h: nat): (r: Option<nat>)
    requires h <= |t|
    ensures r.Some? ==> h < r.value <= |t| && AnswerHead(t, kw, h, r.value)
  {
    if h < |t| && t[h] == '\n' then
      match AnswerWordFrom(t, h + 1, kw.answers)
      case Some(e) =>
        var w :| w in kw.answers && HeadVia(t, h + 1, w, e);
        assert AnswerHead(t, kw, h, SpaceEnd(t, e));
        Some(SpaceEnd(t, e))
      case None => None
    else None
  }

  /** Wherever the answer part can match, `AnswerAt` finds it. */
  lemma AnswerAtComplete(t: string, kw: Keywords, h: nat, g2: nat)
    requires h <= |t| && AnswerHead(t, kw, h, g2)
    ensures AnswerAt(t, kw, h).Some?
  {
    var w: string, e: nat :| w in kw.answers && HeadVia(t, h + 1, w, e) && SpacesBetween(t, e, g2);
    AnswerWordFromComplete(t, h + 1, kw.answers, w, e);
  }

  /** The lazy thought group starting at `g`: the first `h >= g` where the answer part matches. */
  function FirstAnswer(t: string, kw: Keywords, g: nat): (r: Option<(nat, nat)>)
    requires g <= |t|
    ensures r.Some? ==> g <= r.value.0 < r.value.1 <= |t|
    decreases |t| - g
  {
    match AnswerAt(t, kw, g)
    case Some(g2) => Some((g, g2))
    case None => if g == |t| then None else FirstAnswer(t, kw, g + 1)
  }

  /** Where a match starts, where the thought group starts and ends (at the `\n`), and
      where the answer group starts (it runs to the end of the text). */
  datatype Groups = Groups(start: nat, thoughtStart: nat, thoughtEnd: nat, answerStart: nat)

  /** The thought group holds no answer marker: it ends at the first one. */
  ghost predicate Lazy(t: string, kw: Keywords, m: Groups) {
    forall h, g2 :: m.thoughtStart <= h < m.thoughtEnd ==> !AnswerHead(t, kw, h, g2)
  }

  /** The pattern matches `t` with these groups. */
  ghost predicate MatchesWith(t: string, kw: Keywords, m: Groups) {
    && m.start <= m.thoughtStart <= m.thoughtEnd
    && (exists w: string, e: nat {:trigger HeadVia(t, m.start, w, e)} :: w in kw.thoughts && HeadVia(t, m.start, w, e) && SpacesBetween(t, e, m.thoughtStart))
    && AnswerHead(t, kw, m.thoughtEnd, m.answerStart)
  }

  /** The node's pattern matches `t` with these groups. */
  ghost predicate IsMatch(t: string, m: Groups) {
    MatchesWith(t, Pattern, m)
  }

  /** After the thought separator ending at `e`: `\s*` gives back whitespace one
      character at a time (from `g` down to `e`) until the lazy group can end. */
  function GroupFrom(t: string, kw: Keywords, start: nat, e: nat, g: nat): (r: Option<Groups>)
    requires e <= g <= |t|
    ensures r.Some? ==> && r.value.start == start && e <= r.value.thoughtStart <= g
                        && r.value.thoughtStart <= r.value.thoughtEnd < r.value.answerStart <= |t|
    decreases g - e
  {
    match FirstAnswer(t, kw, g)
    case Some(hg) => Some(Groups(start, g, hg.0, hg.1))
    case None => if g == e then None else GroupFrom(t, kw, start, e, g - 1)
  }

  /** One thought keyword `w` at `p`, with the rest of the pattern after it. */
  function ThoughtVia(t: string, kw: Keywords, p: nat, w: string): (r: Option<Groups>)
    requires p <= |t|
    ensures r.Some? ==> && r.value.start == p
                        && r.value.thoughtStart <= r.value.thoughtEnd < r.value.answerStart <= |t|
  {
    if WordAt(t, p, w) then
      match SepEnd(t, p + |w|)
      case Some(e) =>
        (match GroupFrom(t, kw, p, e, SpaceEnd(t, e))
         case Some(m) => Some(m)
         case None => None)
      case None => None
    else None
  }

  /** The thought alternatives `words` at `p`, in order. */
  function ThoughtFrom(t: string, kw: Keywords, p: nat, words: seq<string>): (r: Option<Groups>)
    requires p <= |t|
    ensures r.Some? ==> && r.value.start == p
                        && r.value.thoughtStart <= r.value.thoughtEnd < r.value.answerStart <= |t|
    decreases |words|
  {
    if words == [] then None
    else
      match ThoughtVia(t, kw, p, words[0])
      case Some(m) => Some(m)
      case None => ThoughtFrom(t, kw, p, words[1..])
  }

  /** `pattern.search(text)` from position `p` on: the first start where the pattern matches. */
  function SearchFrom(t: string, kw: Keywords, p: nat): (r: Option<Groups>)
    requires p <= |t|
    ensures r.Some? ==> && p <= r.value.start <= |t|
                        && r.value.thoughtStart <= r.value.thoughtEnd < r.value.answerStart <= |t|
    decreases |t| - p
  {
    match ThoughtFrom(t, kw, p, kw.thoughts)
    case Some(m) => Some(m)
    case None => if p == |t| then None else SearchFrom(t, kw, p + 1)
  }

  /** `_parse_answer`: the stripped groups of the first match, or `("", text)` when
      nothing matches. */
  function ParseAnswer(text: string): (r: (string, string))
    ensures |r.0| + |r.1| <= |text|
  {
    match SearchFrom(text, Pattern, 0)
    case None => ("", text)
    case Some(m) => (Strip(text[m.thoughtStart..m.thoughtEnd]), Strip(text[m.answerStart..]))
  }

  // ---- What each step of the search found ----

  /** The lazy group ends where the answer part matches. */
  lemma {:induction false} FirstAnswerHit(t: string, kw: Keywords, g: nat)
    requires g <= |t| && FirstAnswer(t, kw, g).Some?
    ensures AnswerAt(t, kw, FirstAnswer(t, kw, g).value.0) == Some(FirstAnswer(t, kw, g).value.1)
    decreases |t| - g
  {
    if AnswerAt(t, kw, g).None? {
      FirstAnswerHit(t, kw, g + 1);
    }
  }

  /** The thought group that whitespace give-back settles on is followed by the first answer marker. */
  lemma {:induction false} GroupFromHit(t: string, kw: Keywords, start: nat, e: nat, g: nat)
    requires e <= g <= |t| && GroupFrom(t, kw, start, e, g).Some?
    ensures var m := GroupFrom(t, kw, start, e, g).value;
      FirstAnswer(t, kw, m.thoughtStart) == Some((m.thoughtEnd, m.answerStart))
    decreases g - e
  {
    if FirstAnswer(t, kw, g).None? {
      GroupFromHit(t, kw, start, e, g - 1);
    }
  }

  /** A keyword alternative that matches: the keyword, its separator, and the group
      search after the separator's whitespace. */
  lemma ThoughtViaHit(t: string, kw: Keywords, p: nat, w: string)
    requires p <= |t| && ThoughtVia(t, kw, p, w).Some?
    ensures && WordAt(t, p, w) && SepEnd(t, p + |w|).Some?
            && var e := SepEnd(t, p + |w|).value;
               && e <= SpaceEnd(t, e)
               && GroupFrom(t, kw, p, e, SpaceEnd(t, e)) == ThoughtVia(t, kw, p, w)
  {
  }

  /** The search's result is what the keyword alternatives find at its start. */
  lemma {:induction false} SearchFromHit(t: string, kw: Keywords, p: nat)
    requires p <= |t| && SearchFrom(t, kw, p).Some?
    ensures ThoughtFrom(t, kw, SearchFrom(t, kw, p).value.start, kw.thoughts) == SearchFrom(t, kw, p)
    decreases |t| - p
  {
    if ThoughtFrom(t, kw, p, kw.thoughts).None? {
      SearchFromHit(t, kw, p + 1);
    }
  }

  // ---- Completeness of the search ----

  /** The lazy group ends at the first answer marker: none matches before it. */
  lemma {:induction false} FirstAnswerIsFirst(t: string, kw: Keywords, g: nat, h: nat)
    requires g <= h <= |t| && FirstAnswer(t, kw, g).Some? && h < FirstAnswer(t, kw, g).value.0
    ensures AnswerAt(t, kw, h).None?
    decreases h - g
  {
    if g < h {
      FirstAnswerIsFirst(t, kw, g + 1, h);
    }
  }

  lemma {:induction false} FirstAnswerFinds(t: string, kw: Keywords, g: nat, h: nat)
    requires g <= h <= |t| && AnswerAt(t, kw, h).Some?
    ensures FirstAnswer(t, kw, g).Some? && FirstAnswer(t, kw, g).value.0 <= h
    decreases h - g
  {
    if AnswerAt(t, kw, g).None? {
      FirstAnswerFinds(t, kw, g + 1, h);
    }
  }

  lemma {:induction false} GroupFromFinds(t: string, kw: Keywords, start: nat, e: nat, g: nat, g1: nat)
    requires e <= g1 <= g <= |t| && FirstAnswer(t, kw, g1).Some?
    ensures GroupFrom(t, kw, start, e, g).Some?
    decreases g - g1
  {
    if g > g1 && FirstAnswer(t, kw, g).None? {
      GroupFromFinds(t, kw, start, e, g - 1, g1);
    }
  }

  /** One keyword whose separator is found, with an answer marker reachable from a
      start the thought whitespace can give back to: that alternative matches. */
  lemma ThoughtViaFinds(t: string, kw: Keywords, p: nat, w: string, e: nat, g1: nat)
    requires p <= |t| && WordAt(t, p, w) && SepEnd(t, p + |w|) == Some(e)
    requires e <= g1 <= SpaceEnd(t, e) && FirstAnswer(t, kw, g1).Some?
    ensures ThoughtVia(t, kw, p, w).Some?
  {
    GroupFromFinds(t, kw, p, e, SpaceEnd(t, e), g1);
  }

  lemma {:induction false} ThoughtFromFinds(t: string, kw: Keywords, p: nat, words: seq<string>, w: string)
    requires p <= |t| && w in words && ThoughtVia(t, kw, p, w).Some?
    ensures ThoughtFrom(t, kw, p, words).Some?
    decreases |words|
  {
    if w != words[0] && ThoughtVia(t, kw, p, words[0]).None? {
      ThoughtFromFinds(t, kw, p, words[1..], w);
    }
  }

  lemma {:induction false} SearchFromFinds(t: string, kw: Keywords, p: nat, q: nat)
    requires p <= q <= |t| && ThoughtFrom(t, kw, q, kw.thoughts).Some?
    ensures SearchFrom(t, kw, p).Some? && SearchFrom(t, kw, p).value.start <= q
    decreases q - p
  {
    if ThoughtFrom(t, kw, p, kw.thoughts).None? {
      SearchFromFinds(t, kw, p + 1, q);
    }
  }

  /** The separator after a matched keyword is the one `SepEnd` finds, and the thought
      group starts inside the whitespace run after it. */
  lemma HeadFound(t: string, p: nat, w: string, e: nat, g: nat)
    requires p <= |t| && HeadVia(t, p, w, e) && SpacesBetween(t, e, g)
    ensures SepEnd(t, p + |w|) == Some(e) && e <= g <= SpaceEnd(t, e)
  {
    SepEndComplete(t, p + |w|, e);
    SpaceEndIsFirst(t, e, g);
  }

  /** An answer marker at `h` is found by the lazy group from any `g <= h`. */
  lemma AnswerFound(t: string, kw: Keywords, g: nat, h: nat, g2: nat)
    requires g <= h && AnswerHead(t, kw, h, g2)
    ensures FirstAnswer(t, kw, g).Some?
  {
    AnswerAtComplete(t, kw, h, g2);
    FirstAnswerFinds(t, kw, g, h);
  }

  /** A match's keyword `w` and separator end `e` lead the alternatives at its start to a match. */
  lemma ThoughtAtMatch(t: string, kw: Keywords, m: Groups, w: string, e: nat)
    requires m.start <= |t| && w in kw.thoughts && HeadVia(t, m.start, w, e)
    requires SpacesBetween(t, e, m.thoughtStart) && m.thoughtStart <= m.thoughtEnd
    requires AnswerHead(t, kw, m.thoughtEnd, m.answerStart)
    ensures ThoughtFrom(t, kw, m.start, kw.thoughts).Some?
  {
    HeadFound(t, m.start, w, e, m.thoughtStart);
    AnswerFound(t, kw, m.thoughtStart, m.thoughtEnd, m.answerStart);
    ThoughtViaFinds(t, kw, m.start, w, e, m.thoughtStart);
    ThoughtFromFinds(t, kw, m.start, kw.thoughts, w);
  }

  /** What the thought alternatives found is a match of the pattern's head, with the
      answer part behind it. */
  lemma {:induction false} ThoughtFromHead(t: string, kw: Keywords, p: nat, words: seq<string>)
    requires p <= |t| && ThoughtFrom(t, kw, p, words).Some?
    ensures var m := ThoughtFrom(t, kw, p, words).value;
      && (exists w: string, e: nat {:trigger HeadVia(t, p, w, e)} :: w in words && HeadVia(t, p, w, e) && SpacesBetween(t, e, m.thoughtStart))
      && AnswerHead(t, kw, m.thoughtEnd, m.answerStart)
    decreases |words|
  {
    var w := words[0];
    if ThoughtVia(t, kw, p, w).Some? {
      ThoughtViaHit(t, kw, p, w);
      var e := SepEnd(t, p + |w|).value;
      var m := ThoughtVia(t, kw, p, w).value;
      GroupFromHit(t, kw, p, e, SpaceEnd(t, e));
      FirstAnswerHit(t, kw, m.thoughtStart);
      assert HeadVia(t, p, w, e) && SpacesBetween(t, e, m.thoughtStart);
    } else {
      ThoughtFromHead(t, kw, p, words[1..]);
    }
  }

  /** The search finds a match exactly when the pattern matches somewhere, and it
      finds the leftmost one. */
  lemma SearchFindsLeftmost(t: string, kw: Keywords)
    ensures SearchFrom(t, kw, 0).Some? ==> MatchesWith(t, kw, SearchFrom(t, kw, 0).value)
    ensures forall m :: MatchesWith(t, kw, m) ==>
                        SearchFrom(t, kw, 0).Some? && SearchFrom(t, kw, 0).value.start <= m.start
  {
    if SearchFrom(t, kw, 0).Some? {
      SearchFromHit(t, kw, 0);
      ThoughtFromHead(t, kw, SearchFrom(t, kw, 0).value.start, kw.thoughts);
    }
    forall m | MatchesWith(t, kw, m)
      ensures SearchFrom(t, kw, 0).Some? && SearchFrom(t, kw, 0).value.start <= m.start
    {
      var w: string, e: nat :| w in kw.thoughts && HeadVia(t, m.start, w, e) && SpacesBetween(t, e, m.thoughtStart);
      ThoughtAtMatch(t, kw, m, w, e);
      SearchFromFinds(t, kw, 0, m.start);
    }
  }

  // ---- The thought group is as short as it can be ----

  lemma {:induction false} GroupFromLazy(t: string, kw: Keywords, start: nat, e: nat, g: nat)
    requires e <= g <= |t| && GroupFrom(t, kw, start, e, g).Some?
    ensures Lazy(t, kw, GroupFrom(t, kw, start, e, g).value)
    decreases g - e
  {
    match FirstAnswer(t, kw, g)
    case Some(hg) =>
      forall h, g2 | g <= h < hg.0 ensures !AnswerHead(t, kw, h, g2) {
        FirstAnswerIsFirst(t, kw, g, h);
        if AnswerHead(t, kw, h, g2) {
          AnswerAtComplete(t, kw, h, g2);
        }
      }
    case None =>
      GroupFromLazy(t, kw, start, e, g - 1);
  }

  lemma {:induction false} ThoughtFromLazy(t: string, kw: Keywords, p: nat, words: seq<string>)
    requires p <= |t| && ThoughtFrom(t, kw, p, words).Some?
    ensures Lazy(t, kw, ThoughtFrom(t, kw, p, words).value)
    decreases |words|
  {
    var w := words[0];
    if ThoughtVia(t, kw, p, w).Some? {
      var e := SepEnd(t, p + |w|).value;
      GroupFromLazy(t, kw, p, e, SpaceEnd(t, e));
    } else {
      ThoughtFromLazy(t, kw, p, words[1..]);
    }
  }

  lemma {:induction false} SearchFromLazy(t: string, kw: Keywords, p: nat)
    requires p <= |t| && SearchFrom(t, kw, p).Some?
    ensures Lazy(t, kw, SearchFrom(t, kw, p).value)
    decreases |t| - p
  {
    if ThoughtFrom(t, kw, p, kw.thoughts).Some? {
      ThoughtFromLazy(t, kw, p, kw.thoughts);
    } else {
      SearchFromLazy(t, kw, p + 1);
    }
  }

  // ---- Which match Python reports ----

  /** The match `re.search` reports: the leftmost one; at its start the whitespace
      before the thought group is greedy (no match there starts the group later); the
      thought group is lazy; the whitespace before the answer group is greedy. */
  ghost predicate Chosen(t: string, kw: Keywords, m: Groups) {
    && MatchesWith(t, kw, m)
    && (forall m' :: MatchesWith(t, kw, m') ==> m.start <= m'.start)
    && (forall m' :: MatchesWith(t, kw, m') && m'.start == m.start ==> m'.thoughtStart <= m.thoughtStart)
    && Lazy(t, kw, m)
    && (forall m' :: MatchesWith(t, kw, m') && m'.thoughtEnd == m.thoughtEnd ==> m'.answerStart <= m.answerStart)
  }

  /** These conditions leave no choice: at most one match meets them. */
  lemma ChosenUnique(t: string, kw: Keywords, m1: Groups, m2: Groups)
    requires Chosen(t, kw, m1) && Chosen(t, kw, m2)
    ensures m1 == m2
  {
    assert m1.start == m2.start;
    assert m1.thoughtStart == m2.thoughtStart;
    assert AnswerHead(t, kw, m1.thoughtEnd, m1.answerStart) && AnswerHead(t, kw, m2.thoughtEnd, m2.answerStart);
    assert m1.thoughtEnd == m2.thoughtEnd;
    assert m1.answerStart == m2.answerStart;
  }

  /** Two lower-case pattern letters that match the same character are the same letter. */
  lemma FoldDetermines(c: char, k1: char, k2: char)
    requires 'a' <= k1 <= 'z' && 'a' <= k2 <= 'z'
    requires FoldMatches(c, k1) && FoldMatches(c, k2)
    ensures k1 == k2
  {
  }

  /** Where "thoughts" matches, the character after "thought" is neither whitespace nor
      a separator, so "thought" cannot be followed by a separator there. */
  lemma PluralLetter(t: string, p: nat)
    requires WordAt(t, p, "thoughts")
    ensures !IsSpace(t[p + 7]) && !IsSep(t[p + 7])
  {
    assert FoldMatches(t[p + 7], "thoughts"[7]);
  }

  /** At most one thought keyword of the node's pattern, with its separator, matches
      at a place. */
  lemma ThoughtKeywordUnique(t: string, p: nat, w1: string, e1: nat, w2: string, e2: nat)
    requires w1 in Pattern.thoughts && w2 in Pattern.thoughts
    requires HeadVia(t, p, w1, e1) && HeadVia(t, p, w2, e2)
    ensures w1 == w2
  {
    assert FoldMatches(t[p + 0], w1[0]) && FoldMatches(t[p + 0], w2[0]);
    FoldDetermines(t[p], w1[0], w2[0]);
    if WordAt(t, p, "thoughts") {
      PluralLetter(t, p);
    }
  }

  /** At most one answer keyword of the node's pattern matches at a place: they begin
      with different letters. */
  lemma AnswerKeywordUnique(t: string, i: nat, w1: string, e1: nat, w2: string, e2: nat)
    requires w1 in Pattern.answers && w2 in Pattern.answers
    requires HeadVia(t, i, w1, e1) && HeadVia(t, i, w2, e2)
    ensures w1 == w2
  {
    assert FoldMatches(t[i + 0], w1[0]) && FoldMatches(t[i + 0], w2[0]);
    FoldDetermines(t[i], w1[0], w2[0]);
  }

  /** What the thought alternatives found, one of them found. */
  lemma {:induction false} ThoughtFromVia(t: string, kw: Keywords, p: nat, words: seq<string>)
    requires p <= |t| && ThoughtFrom(t, kw, p, words).Some?
    ensures exists w :: w in words && ThoughtVia(t, kw, p, w) == ThoughtFrom(t, kw, p, words)
    decreases |words|
  {
    if ThoughtVia(t, kw, p, words[0]).None? {
      ThoughtFromVia(t, kw, p, words[1..]);
      var w :| w in words[1..] && ThoughtVia(t, kw, p, w) == ThoughtFrom(t, kw, p, words[1..]);
      assert w in words;
    } else {
      assert words[0] in words;
    }
  }

  /** Whitespace give-back stops at the latest thought start from which an answer
      marker can be reached. */
  lemma {:induction false} GroupFromGreedy(t: string, kw: Keywords, start: nat, e: nat, g: nat, g1: nat)
    requires e <= g1 <= g <= |t| && FirstAnswer(t, kw, g1).Some?
    ensures GroupFrom(t, kw, start, e, g).Some? && g1 <= GroupFrom(t, kw, start, e, g).value.thoughtStart
    decreases g - g1
  {
    if g > g1 && FirstAnswer(t, kw, g).None? {
      GroupFromGreedy(t, kw, start, e, g - 1, g1);
    }
  }

  /** The node's answer part at `h` starts its group after all the whitespace. */
  lemma AnswerAtGreedy(t: string, h: nat, g2: nat)
    requires h <= |t| && AnswerHead(t, Pattern, h, g2)
    ensures AnswerAt(t, Pattern, h).Some? && g2 <= AnswerAt(t, Pattern, h).value
  {
    AnswerAtComplete(t, Pattern, h, g2);
    var ea := AnswerWordFrom(t, h + 1, Pattern.answers).value;
    assert AnswerAt(t, Pattern, h) == Some(SpaceEnd(t, ea));
    var w1: string :| w1 in Pattern.answers && HeadVia(t, h + 1, w1, ea);
    var w2: string, e2: nat :| w2 in Pattern.answers && HeadVia(t, h + 1, w2, e2) && SpacesBetween(t, e2, g2);
    AnswerKeywordUnique(t, h + 1, w1, ea, w2, e2);
    HeadFound(t, h + 1, w2, e2, g2);
    SepEndComplete(t, h + 1 + |w1|, ea);
  }

  /** The search's match, seen through the alternative that produced it: a keyword,
      its separator end `e`, and the give-back from the end of the whitespace after it. */
  lemma SearchVia(t: string, kw: Keywords) returns (w: string, e: nat)
    requires SearchFrom(t, kw, 0).Some?
    ensures var m := SearchFrom(t, kw, 0).value;
      && w in kw.thoughts && m.start <= |t| && HeadVia(t, m.start, w, e) && e <= SpaceEnd(t, e)
      && GroupFrom(t, kw, m.start, e, SpaceEnd(t, e)) == Some(m)
  {
    var r := SearchFrom(t, kw, 0);
    var p := r.value.start;
    SearchFromHit(t, kw, 0);
    ThoughtFromVia(t, kw, p, kw.thoughts);
    w :| w in kw.thoughts && ThoughtVia(t, kw, p, w) == ThoughtFrom(t, kw, p, kw.thoughts);
    assert ThoughtVia(t, kw, p, w) == r;
    ThoughtViaHit(t, kw, p, w);
    e := SepEnd(t, p + |w|).value;
    assert SepSpan(t, p + |w|, e);
  }

  /** No match at the search's start begins its thought group later than the search's. */
  lemma ThoughtStartGreedy(t: string, m': Groups)
    requires SearchFrom(t, Pattern, 0).Some? && IsMatch(t, m') && m'.start == SearchFrom(t, Pattern, 0).value.start
    ensures m'.thoughtStart <= SearchFrom(t, Pattern, 0).value.thoughtStart
  {
    var m := SearchFrom(t, Pattern, 0).value;
    var w, e := SearchVia(t, Pattern);
    var w2: string, e2: nat :| w2 in Pattern.thoughts && HeadVia(t, m.start, w2, e2) && SpacesBetween(t, e2, m'.thoughtStart);
    ThoughtKeywordUnique(t, m.start, w, e, w2, e2);
    SepEndComplete(t, m.start + |w|, e);
    HeadFound(t, m.start, w2, e2, m'.thoughtStart);
    AnswerFound(t, Pattern, m'.thoughtStart, m'.thoughtEnd, m'.answerStart);
    GroupFromGreedy(t, Pattern, m.start, e, SpaceEnd(t, e), m'.thoughtStart);
  }

  /** No match whose thought group ends where the search's does starts its answer group later. */
  lemma AnswerStartGreedy(t: string, m': Groups)
    requires SearchFrom(t, Pattern, 0).Some? && IsMatch(t, m') && m'.thoughtEnd == SearchFrom(t, Pattern, 0).value.thoughtEnd
    ensures m'.answerStart <= SearchFrom(t, Pattern, 0).value.answerStart
  {
    var m := SearchFrom(t, Pattern, 0).value;
    var w, e := SearchVia(t, Pattern);
    GroupFromHit(t, Pattern, m.start, e, SpaceEnd(t, e));
    FirstAnswerHit(t, Pattern, m.thoughtStart);
    AnswerAtGreedy(t, m.thoughtEnd, m'.answerStart);
  }

  /** The search reports exactly the match Python's engine reports. */
  lemma SearchChosen(t: string)
    requires SearchFrom(t, Pattern, 0).Some?
    ensures Chosen(t, Pattern, SearchFrom(t, Pattern, 0).value)
  {
    var m := SearchFrom(t, Pattern, 0).value;
    SearchFindsLeftmost(t, Pattern);
    SearchFromLazy(t, Pattern, 0);
    forall m' | MatchesWith(t, Pattern, m') && m'.start == m.start
      ensures m'.thoughtStart <= m.thoughtStart
    {
      ThoughtStartGreedy(t, m');
    }
    forall m' | MatchesWith(t, Pattern, m') && m'.thoughtEnd == m.thoughtEnd
      ensures m'.answerStart <= m.answerStart
    {
      AnswerStartGreedy(t, m');
    }
  }

  // ---- What `_parse_answer` returns ----

  /** Without a match the text comes back whole, with empty thoughts. */
  lemma ParseAnswerUnmatched(text: string)
    ensures (forall m :: !IsMatch(text, m)) ==> ParseAnswer(text) == ("", text)
  {
    SearchFindsLeftmost(text, Pattern);
    if SearchFrom(text, Pattern, 0).Some? {
      assert IsMatch(text, SearchFrom(text, Pattern, 0).value);
    }
  }

  /** With a match, the result is the stripped groups of the match Python reports
      (which `ChosenUnique` shows to be the only one meeting `Chosen`). */
  lemma ParseAnswerMatched(text: string)
    requires exists m :: IsMatch(text, m)
    ensures exists m :: && Chosen(text, Pattern, m)
                        && m.thoughtStart <= m.thoughtEnd < m.answerStart <= |text|
                        && ParseAnswer(text) == (Strip(text[m.thoughtStart..m.thoughtEnd]), Strip(text[m.answerStart..]))
  {
    SearchFindsLeftmost(text, Pattern);
    var m := SearchFrom(text, Pattern, 0).value;
    SearchChosen(text);
    assert Chosen(text, Pattern, m);
  }

  /** Both cases of `_parse_answer`. */
  lemma ParseAnswerSpec(text: string)
    ensures (forall m :: !IsMatch(text, m)) ==> ParseAnswer(text) == ("", text)
    ensures (exists m :: IsMatch(text, m)) ==>
      exists m :: && Chosen(text, Pattern, m)
                  && m.thoughtStart <= m.thoughtEnd < m.answerStart <= |text|
                  && ParseAnswer(text) == (Strip(text[m.thoughtStart..m.thoughtEnd]), Strip(text[m.answerStart..]))
  {
    ParseAnswerUnmatched(text);
    if exists m :: IsMatch(text, m) {
      ParseAnswerMatched(text);
    }
  }

  lemma NoLineBreakNoMatch(text: string)
    requires '\n' !in text
    ensures forall m :: !IsMatch(text, m)
  {
    forall m | IsMatch(text, m) ensures false {
    }
  }

  /** A text without a line break never matches. */
  lemma NoLineBreakNoSplit(text: string)
    requires '\n' !in text
    ensures ParseAnswer(text) == ("", text)
  {
    NoLineBreakNoMatch(text);
    ParseAnswerSpec(text);
  }

  /** On a match both parts are stripped, and the response is a stripped suffix of the text. */
  lemma ParseAnswerStripped(text: string)
    requires exists m :: IsMatch(text, m)
    ensures var r := ParseAnswer(text);
      && Strip(r.0) == r.0 && Strip(r.1) == r.1
      && exists k :: 0 <= k <= |text| && r.1 == Strip(text[k..])
  {
    SearchFindsLeftmost(text, Pattern);
    var m := SearchFrom(text, Pattern, 0).value;
    StripIdempotent(text[m.thoughtStart..m.thoughtEnd]);
    StripIdempotent(text[m.answerStart..]);
  }

  // ---- A worked example ----

  const Sample: string := "Thoughts: foo\nResponse: bar"

  lemma SampleNoEarlyMarker()
    ensures AnswerAt(Sample, Pattern, 10).None? && AnswerAt(Sample, Pattern, 11).None?
    ensures AnswerAt(Sample, Pattern, 12).None?
  {
    assert Sample[10] != '\n' && Sample[11] != '\n' && Sample[12] != '\n';
  }

  lemma SampleAnswerWord()
    ensures WordAt(Sample, 14, "response")
  {
  }

  lemma SampleAnswerSep()
    ensures SepEnd(Sample, 22) == Some(23) && SpaceEnd(Sample, 23) == 24
  {
    assert Sample[22] == ':' && Sample[23] == ' ' && Sample[24] == 'b';
    assert SpaceEnd(Sample, 24) == 24;
    assert SpaceEnd(Sample, 22) == 22;
  }

  lemma SampleMarker()
    ensures AnswerAt(Sample, Pattern, 13) == Some(24)
  {
    SampleAnswerWord();
    SampleAnswerSep();
    assert AnswerWordFrom(Sample, 14, Pattern.answers) == Some(23);
  }

  lemma SampleFirstAnswer()
    ensures FirstAnswer(Sample, Pattern, 10) == Some((13, 24))
  {
    SampleNoEarlyMarker();
    SampleMarker();
    assert FirstAnswer(Sample, Pattern, 13) == Some((13, 24));
    assert FirstAnswer(Sample, Pattern, 12) == Some((13, 24));
    assert FirstAnswer(Sample, Pattern, 11) == Some((13, 24));
  }

  lemma SampleGroup()
    ensures GroupFrom(Sample, Pattern, 0, 9, 10) == Some(Groups(0, 10, 13, 24))
  {
    SampleFirstAnswer();
  }

  lemma SampleThoughtWord()
    ensures WordAt(Sample, 0, "thoughts")
  {
  }

  lemma SampleThoughtSep()
    ensures SepEnd(Sample, 8) == Some(9) && SpaceEnd(Sample, 9) == 10
  {
    assert Sample[8] == ':' && Sample[9] == ' ' && Sample[10] == 'f';
    assert SpaceEnd(Sample, 10) == 10;
    assert SpaceEnd(Sample, 8) == 8;
  }

  lemma SampleHead()
    ensures WordAt(Sample, 0, "thoughts") && SepEnd(Sample, 8) == Some(9) && SpaceEnd(Sample, 9) == 10
  {
    SampleThoughtWord();
    SampleThoughtSep();
  }

  lemma SampleThought()
    ensures ThoughtVia(Sample, Pattern, 0, "thoughts") == Some(Groups(0, 10, 13, 24))
  {
    SampleHead();
    SampleGroup();
  }

  lemma SampleSearch()
    ensures SearchFrom(Sample, Pattern, 0) == Some(Groups(0, 10, 13, 24))
  {
    SampleThought();
    assert ThoughtFrom(Sample, Pattern, 0, Pattern.thoughts) == Some(Groups(0, 10, 13, 24));
  }

  lemma SampleStrips()
    ensures Strip(Sample[10..13]) == "foo" && Strip(Sample[24..]) == "bar"
  {
    assert Sample[10..13] == "foo";
    assert Sample[24..] == "bar";
    StripFixes("foo");
    StripFixes("bar");
  }

  /** "Thoughts: foo\nResponse: bar" splits into "foo" and "bar". */
  lemma SampleSplit()
    ensures ParseAnswer(Sample) == ("foo", "bar")
  {
    SampleSearch();
    assert ParseAnswer(Sample) == (Strip(Sample[10..13]), Strip(Sample[24..]));
    SampleStrips();
  }
}
