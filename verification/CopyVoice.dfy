/** Failure messages and the advice they carry. */
module CopyVoice {
  import opened Text

  // ------------------------------------------------------------------ phrases

  predicate IsLower(c: char) {
    'a' <= c <= 'z'
  }

  predicate IsPhraseChar(c: char) {
    IsLower(c) || c == ' ' || c == '-' || c == '\''
  }

  /** A word or phrase of a pattern, in lower case, from a letter to a letter. */
  predicate IsPhrase(p: string) {
    p != "" && IsLower(p[0]) && IsLower(p[|p| - 1]) && forall i :: 0 <= i < |p| ==> IsPhraseChar(p[i])
  }

  type Phrase = p: string | IsPhrase(p) witness "a"

  /** The openings of a failure clause, in the order in which they are tried. */
  const FAILURES: seq<Phrase> :=
    ["failed to", "could not", "couldn't", "cannot", "can't", "unable to", "error while", "error"]

  const TRY_VERBS: seq<Phrase> := ["try", "retry", "reload", "refresh", "check", "select", "choose", "pick"]
  const PICK_VERBS: seq<Phrase> := ["enter", "re-enter", "reenter", "add", "create", "link", "connect", "reconnect"]
  const LINK_VERBS: seq<Phrase> := ["sign in", "sign out", "log in", "contact", "ask", "open", "go to", "use"]
  const FIX_VERBS: seq<Phrase> := ["fix", "remove", "wait", "enable", "allow", "publish", "import", "run"]
  const SAVE_VERBS: seq<Phrase> := ["save", "paste", "upload", "rename", "resolve", "review", "verify", "confirm"]
  const REVIEW_VERBS: seq<Phrase> := ["copy", "install", "switch", "close", "provide", "give", "type", "request"]
  const GIVE_VERBS: seq<Phrase> := ["edit", "restore", "upgrade", "adjust", "clear", "change", "make sure", "please"]
  const REQUESTS: seq<Phrase> := ["required", "must", "should", "need to", "needs to"]

  /** The phrases that count as naming a next action. */
  const ACTIONS: seq<Phrase> :=
    TRY_VERBS + PICK_VERBS + LINK_VERBS + FIX_VERBS
    + SAVE_VERBS + REVIEW_VERBS + GIVE_VERBS + REQUESTS

  const FAILURE_WORDS: seq<Phrase> :=
    ["fail", "failed", "fails", "failure", "could not", "couldn't", "unable to", "error"]
  const OUTAGE_WORDS: seq<Phrase> :=
    ["unexpected", "went wrong", "timed out", "time out", "timeout", "network", "unavailable", "unreachable"]

  /** The phrases that mark a failed operation, as opposed to a rule. */
  const OPERATIONAL: seq<Phrase> := FAILURE_WORDS + OUTAGE_WORDS

  // ------------------------------------------------------------------ matching

  /** The characters of a word, for word boundaries. */
  predicate IsWordChar(c: char) {
    'a' <= c <= 'z' || 'A' <= c <= 'Z' || '0' <= c <= '9' || c == '_'
  }

  predicate WordAt(s: string, i: int) {
    0 <= i < |s| && IsWordChar(s[i])
  }

  predicate Boundary(s: string, i: nat) {
    WordAt(s, i - 1) != WordAt(s, i)
  }

  /** The phrase stands at position `i`, in any case of letters. */
  predicate PhraseAt(s: string, i: nat, p: Phrase) {
    i + |p| <= |s| && forall k :: 0 <= k < |p| ==> LowerChar(s[i + k]) == p[k]
  }

  /** A letter or a hyphen, as the failure clause's last word may hold. */
  predicate IsClauseChar(c: char) {
    IsLower(LowerChar(c)) || c == '-'
  }

  function SpaceEnd(s: string, i: nat): (j: nat)
    requires i <= |s|
    ensures i <= j <= |s|
    decreases |s| - i
  {
    if i < |s| && IsSpace(s[i]) then SpaceEnd(s, i + 1) else i
  }

  function ClauseEnd(s: string, i: nat): (j: nat)
    requires i <= |s|
    ensures i <= j <= |s|
    decreases |s| - i
  {
    if i < |s| && IsClauseChar(s[i]) then ClauseEnd(s, i + 1) else i
  }

  /** Where the clause that starts at `i` with `p` ends: the phrase, white space and one word; `i` if there is none. */
  function ClauseOf(s: string, i: nat, p: Phrase): (j: nat)
    requires i <= |s|
    ensures i <= j <= |s|
  {
    if !PhraseAt(s, i, p) then i
    else
      var word := SpaceEnd(s, i + |p|);
      if word == i + |p| || ClauseEnd(s, word) == word then i else ClauseEnd(s, word)
  }

  /** Where the failure clause at `i` ends, by the first phrase that fits; `i` if none does. */
  function FailureEnd(s: string, i: nat, phrases: seq<Phrase>): (j: nat)
    requires i <= |s|
    ensures i <= j <= |s|
  {
    if phrases == [] then i
    else if ClauseOf(s, i, phrases[0]) > i then ClauseOf(s, i, phrases[0])
    else FailureEnd(s, i, phrases[1..])
  }

  /** The text from `i` on, with every failure clause replaced by a space. */
  function Stripped(s: string, i: nat): string
    requires i <= |s|
    decreases |s| - i
  {
    if i == |s| then ""
    else
      var j := if Boundary(s, i) then FailureEnd(s, i, FAILURES) else i;
      if j > i then " " + Stripped(s, j) else [s[i]] + Stripped(s, i + 1)
  }

  /** The phrase stands in the text as whole words. */
  predicate SaysPhrase(s: string, p: Phrase) {
    exists i :: 0 <= i <= |s| && PhraseAt(s, i, p) && Boundary(s, i) && Boundary(s, i + |p|)
  }

  predicate Says(s: string, phrases: seq<Phrase>) {
    exists k :: 0 <= k < |phrases| && SaysPhrase(s, phrases[k])
  }

  predicate NamesNextAction(message: string) {
    Says(Stripped(message, 0), ACTIONS)
  }

  // ------------------------------------------------------------------ the rewriting

  const DEFAULT_NEXT_ACTION := "try again."

  const UNKNOWN_FAILURE := "Something went wrong — try again."

  predicate IsTrailing(c: char) {
    c == '.' || c == '!' || c == ':' || c == ';' || c == ',' || IsSpace(c)
  }

  /** The text without its trailing punctuation and white space. */
  function Bare(s: string): string {
    if s != "" && IsTrailing(s[|s| - 1]) then Bare(s[..|s| - 1]) else s
  }

  function ActionText(nextAction: string): string {
    if Trim(nextAction) == "" then DEFAULT_NEXT_ACTION else Trim(nextAction)
  }

  /** The message, with the action appended if it names none itself. */
  function WithNextAction(message: string, nextAction: string): string {
    var trimmed := Trim(message);
    if trimmed == "" then UNKNOWN_FAILURE
    else if NamesNextAction(trimmed) then trimmed
    else Bare(trimmed) + " — " + ActionText(nextAction)
  }

  /** An HTTP status code 4xx or 5xx as a word of its own. */
  predicate HasStatusCode(s: string) {
    exists i :: 0 <= i && i + 3 <= |s| && (s[i] == '4' || s[i] == '5') && IsDigit(s[i + 1]) && IsDigit(s[i + 2])
      && Boundary(s, i) && Boundary(s, i + 3)
  }

  predicate IsOperationalFailure(message: string) {
    Says(message, OPERATIONAL) || HasStatusCode(message)
  }

  /** Rewriting where rules are shown as well: those are only trimmed. */
  function VoiceFailure(message: string, nextAction: string): string {
    var trimmed := Trim(message);
    if trimmed == "" then UNKNOWN_FAILURE
    else if IsOperationalFailure(trimmed) then WithNextAction(trimmed, nextAction)
    else trimmed
  }

  // ------------------------------------------------------------------ what cannot be part of a clause

  /** Neither part of a word nor of a clause's last word. */
  predicate Inert(c: char) {
    !IsWordChar(c) && !IsClauseChar(c)
  }

  /** A character no phrase and no gap between words can run across. */
  predicate Barrier(c: char) {
    Inert(c) && !IsSpace(c) && !IsPhraseChar(LowerChar(c))
  }

  /** White space up to a barrier or the end. */
  predicate StopsAt(r: string, m: nat) {
    m <= |r| && (forall k :: 0 <= k < m ==> IsSpace(r[k])) && (m < |r| ==> Barrier(r[m]))
  }

  lemma SpaceIsInert(c: char)
    requires IsSpace(c)
    ensures Inert(c) && !IsLower(LowerChar(c))
  {}

  lemma InertIsNoLetter(c: char)
    requires Inert(c)
    ensures !IsLower(LowerChar(c))
  {}

  lemma TrailingIsInert(c: char)
    requires IsTrailing(c)
    ensures Inert(c) && (IsSpace(c) || Barrier(c))
  {}

  // ------------------------------------------------------------------ text before the match is irrelevant

  predicate EndsInert(p: string) {
    p == "" || !IsWordChar(p[|p| - 1])
  }

  lemma ShiftBoundary(p: string, y: string, k: nat)
    requires EndsInert(p) && k <= |y|
    ensures Boundary(p + y, |p| + k) == Boundary(y, k)
  {
    hide IsWordChar;
    if k > 0 {
      assert (p + y)[|p| + k - 1] == y[k - 1];
    }
  }

  lemma {:induction false} ShiftSpaceEnd(p: string, y: string, k: nat)
    requires k <= |y|
    ensures SpaceEnd(p + y, |p| + k) == |p| + SpaceEnd(y, k)
    decreases |y| - k
  {
    hide IsSpace;
    if k < |y| && IsSpace(y[k]) {
      ShiftSpaceEnd(p, y, k + 1);
    }
  }

  lemma {:induction false} ShiftClauseEnd(p: string, y: string, k: nat)
    requires k <= |y|
    ensures ClauseEnd(p + y, |p| + k) == |p| + ClauseEnd(y, k)
    decreases |y| - k
  {
    hide IsClauseChar;
    if k < |y| && IsClauseChar(y[k]) {
      ShiftClauseEnd(p, y, k + 1);
    }
  }

  lemma ShiftPhrase(p: string, y: string, k: nat, w: Phrase)
    requires k <= |y|
    ensures PhraseAt(p + y, |p| + k, w) == PhraseAt(y, k, w)
  {
    if k + |w| <= |y| {
      if PhraseAt(p + y, |p| + k, w) {
        forall n | 0 <= n < |w| ensures LowerChar(y[k + n]) == w[n] {
          assert LowerChar((p + y)[|p| + k + n]) == w[n];
        }
      }
    }
  }

  lemma ShiftClauseOf(p: string, y: string, k: nat, w: Phrase)
    requires k <= |y|
    ensures ClauseOf(p + y, |p| + k, w) == |p| + ClauseOf(y, k, w)
  {
    hide PhraseAt, SpaceEnd, ClauseEnd;
    ShiftPhrase(p, y, k, w);
    if PhraseAt(y, k, w) {
      PhraseFits(y, k, w);
      ShiftSpaceEnd(p, y, k + |w|);
      ShiftClauseEnd(p, y, SpaceEnd(y, k + |w|));
    }
  }

  lemma PhraseFits(s: string, i: nat, w: Phrase)
    requires PhraseAt(s, i, w)
    ensures i + |w| <= |s|
  {}

  lemma {:induction false} ShiftFailureEnd(p: string, y: string, k: nat, phrases: seq<Phrase>)
    requires k <= |y|
    ensures FailureEnd(p + y, |p| + k, phrases) == |p| + FailureEnd(y, k, phrases)
  {
    hide ClauseOf;
    if phrases != [] {
      ShiftClauseOf(p, y, k, phrases[0]);
      ShiftFailureEnd(p, y, k, phrases[1..]);
    }
  }

  lemma {:induction false} ShiftStripped(p: string, y: string, k: nat)
    requires EndsInert(p) && k <= |y|
    ensures Stripped(p + y, |p| + k) == Stripped(y, k)
    decreases |y| - k
  {
    hide FailureEnd, Boundary, EndsInert;
    if k < |y| {
      ShiftBoundary(p, y, k);
      ShiftFailureEnd(p, y, k, FAILURES);
      var j := if Boundary(y, k) then FailureEnd(y, k, FAILURES) else k;
      ShiftStripped(p, y, if j > k then j else k + 1);
    }
  }

  // ------------------------------------------------------------------ no clause crosses a stop

  lemma StopStartsInert(r: string, m: nat)
    requires StopsAt(r, m) && r != ""
    ensures Inert(r[0])
  {
    hide Inert, Barrier, IsSpace;
    if m > 0 {
      SpaceIsInert(r[0]);
    } else {
      BarrierIsInert(r[0]);
    }
  }

  lemma BarrierIsInert(c: char)
    requires Barrier(c)
    ensures Inert(c) && !IsSpace(c) && !IsPhraseChar(LowerChar(c))
  {}

  lemma LeftBoundary(x: string, r: string, m: nat, i: nat)
    requires StopsAt(r, m) && i <= |x|
    ensures Boundary(x + r, i) == Boundary(x, i)
  {
    hide Inert, StopsAt;
    if i == |x| && r != "" {
      StopStartsInert(r, m);
      InertIsNoWordChar(r[0]);
    }
  }

  lemma InertIsNoWordChar(c: char)
    requires Inert(c)
    ensures !IsWordChar(c) && !IsClauseChar(c)
  {}

  lemma PhraseLetters(s: string, i: nat, w: Phrase)
    requires PhraseAt(s, i, w)
    ensures i + |w| <= |s|
    ensures IsLower(LowerChar(s[i])) && IsLower(LowerChar(s[i + |w| - 1]))
    ensures forall k :: i <= k < i + |w| ==> IsPhraseChar(LowerChar(s[k]))
  {
    assert LowerChar(s[i + 0]) == w[0] && LowerChar(s[i + (|w| - 1)]) == w[|w| - 1];
    forall k | i <= k < i + |w| ensures IsPhraseChar(LowerChar(s[k])) {
      assert LowerChar(s[i + (k - i)]) == w[k - i];
    }
  }

  lemma PhraseStops(x: string, r: string, m: nat, i: nat, w: Phrase)
    requires StopsAt(r, m) && i <= |x| && PhraseAt(x + r, i, w)
    ensures i + |w| <= |x|
  {
    hide PhraseAt, LowerChar, IsSpace, IsPhraseChar, Barrier;
    PhraseLetters(x + r, i, w);
    if m < |r| {
      BarrierIsInert(r[m]);
      assert (x + r)[|x| + m] == r[m];
    }
    var last := i + |w| - 1;
    if |x| <= last < |x| + m {
      assert (x + r)[last] == r[last - |x|];
      SpaceIsInert((x + r)[last]);
    }
  }

  lemma LeftPhrase(x: string, r: string, m: nat, i: nat, w: Phrase)
    requires StopsAt(r, m) && i <= |x|
    ensures PhraseAt(x + r, i, w) == PhraseAt(x, i, w)
  {
    var s := x + r;
    if PhraseAt(s, i, w) {
      PhraseStops(x, r, m, i, w);
      forall n | 0 <= n < |w| ensures LowerChar(x[i + n]) == w[n] {
        assert LowerChar(s[i + n]) == w[n];
      }
    }
    if PhraseAt(x, i, w) {
      forall n | 0 <= n < |w| ensures LowerChar(s[i + n]) == w[n] {
        assert LowerChar(x[i + n]) == w[n];
      }
    }
  }

  lemma {:induction false} LeftClauseEnd(x: string, r: string, m: nat, j: nat)
    requires StopsAt(r, m) && j <= |x|
    ensures ClauseEnd(x + r, j) == ClauseEnd(x, j)
    decreases |x| - j
  {
    hide IsClauseChar, StopsAt, Inert;
    if j == |x| {
      if r != "" {
        StopStartsInert(r, m);
        InertIsNoWordChar(r[0]);
        assert (x + r)[j] == r[0];
      }
    } else if IsClauseChar(x[j]) {
      LeftClauseEnd(x, r, m, j + 1);
    }
  }

  lemma {:induction false} LeftSpaceEnd(x: string, r: string, m: nat, j: nat)
    requires StopsAt(r, m) && j <= |x|
    ensures if SpaceEnd(x, j) < |x| then SpaceEnd(x + r, j) == SpaceEnd(x, j) else SpaceEnd(x + r, j) == |x| + m
    decreases |x| - j
  {
    hide IsSpace, Barrier;
    if j == |x| {
      SpacesUpTo(x, r, m, 0);
    } else if IsSpace(x[j]) {
      LeftSpaceEnd(x, r, m, j + 1);
    }
  }

  lemma {:induction false} SpacesUpTo(x: string, r: string, m: nat, k: nat)
    requires StopsAt(r, m) && k <= m
    ensures SpaceEnd(x + r, |x| + k) == |x| + m
    decreases m - k
  {
    hide IsSpace, Barrier;
    if k < m {
      assert (x + r)[|x| + k] == r[k];
      SpacesUpTo(x, r, m, k + 1);
    } else if m < |r| {
      BarrierIsInert(r[m]);
      assert (x + r)[|x| + m] == r[m];
    }
  }

  lemma NoClauseAtStop(x: string, r: string, m: nat)
    requires StopsAt(r, m)
    ensures ClauseEnd(x + r, |x| + m) == |x| + m && ClauseEnd(x, |x|) == |x|
  {
    hide IsSpace, IsClauseChar;
    if m < |r| {
      BarrierIsInert(r[m]);
      InertIsNoWordChar(r[m]);
      assert (x + r)[|x| + m] == r[m];
    }
  }

  lemma LeftClauseOf(x: string, r: string, m: nat, i: nat, w: Phrase)
    requires StopsAt(r, m) && i <= |x|
    ensures ClauseOf(x + r, i, w) == ClauseOf(x, i, w)
  {
    hide PhraseAt, SpaceEnd, ClauseEnd, StopsAt;
    LeftPhrase(x, r, m, i, w);
    if PhraseAt(x, i, w) {
      PhraseFits(x, i, w);
      LeftSpaceEnd(x, r, m, i + |w|);
      var word := SpaceEnd(x, i + |w|);
      if word < |x| {
        LeftClauseEnd(x, r, m, word);
      } else {
        NoClauseAtStop(x, r, m);
      }
    }
  }

  lemma {:induction false} LeftFailureEnd(x: string, r: string, m: nat, i: nat, phrases: seq<Phrase>)
    requires StopsAt(r, m) && i <= |x|
    ensures FailureEnd(x + r, i, phrases) == FailureEnd(x, i, phrases)
  {
    hide ClauseOf, StopsAt;
    if phrases != [] {
      LeftClauseOf(x, r, m, i, phrases[0]);
      LeftFailureEnd(x, r, m, i, phrases[1..]);
    }
  }

  /** Stripping failure clauses never reaches across a stop. */
  lemma {:induction false} LeftStripped(x: string, r: string, m: nat, i: nat)
    requires StopsAt(r, m) && i <= |x|
    ensures Stripped(x + r, i) == Stripped(x, i) + Stripped(x + r, |x|)
    decreases |x| - i
  {
    hide FailureEnd, Boundary, StopsAt;
    if i < |x| {
      LeftBoundary(x, r, m, i);
      LeftFailureEnd(x, r, m, i, FAILURES);
      var j := if Boundary(x, i) then FailureEnd(x, i, FAILURES) else i;
      LeftStripped(x, r, m, if j > i then j else i + 1);
    }
  }

  lemma NoPhraseAt(s: string, i: nat, w: Phrase)
    requires i < |s| && !IsLower(LowerChar(s[i]))
    ensures !PhraseAt(s, i, w)
  {
    if PhraseAt(s, i, w) {
      PhraseLetters(s, i, w);
    }
  }

  lemma {:induction false} NoFailureAt(s: string, i: nat, phrases: seq<Phrase>)
    requires i < |s| && !IsLower(LowerChar(s[i]))
    ensures FailureEnd(s, i, phrases) == i
  {
    if phrases != [] {
      NoFailureAt(s, i, phrases[1..]);
      NoPhraseAt(s, i, phrases[0]);
    }
  }

  lemma InertKept(s: string, i: nat)
    requires i < |s| && Inert(s[i])
    ensures Stripped(s, i) == [s[i]] + Stripped(s, i + 1)
  {
    hide FailureEnd, Boundary, Inert;
    InertIsNoLetter(s[i]);
    NoFailureAt(s, i, FAILURES);
  }

  lemma StrippedEnd(s: string)
    ensures Stripped(s, |s|) == ""
  {}

  lemma {:induction false} InertTailKept(s: string, i: nat)
    requires i <= |s| && forall k :: i <= k < |s| ==> Inert(s[k])
    ensures Stripped(s, i) == s[i..]
    decreases |s| - i
  {
    hide Inert, Stripped;
    if i < |s| {
      InertKept(s, i);
      InertTailKept(s, i + 1);
    } else {
      StrippedEnd(s);
    }
  }

  // ------------------------------------------------------------------ whole words on either side

  /** An inert stretch that no phrase can span, or that ends the text. */
  predicate Separates(u: string, r: string, v: string) {
    && (forall k :: 0 <= k < |r| ==> Inert(r[k]))
    && (u == "" || v == "" || exists k :: 0 <= k < |r| && Barrier(r[k]))
  }

  lemma PhraseOnOneSide(u: string, r: string, v: string, i: nat, w: Phrase)
    requires Separates(u, r, v) && PhraseAt(u + r + v, i, w)
    ensures i + |w| <= |u| || i >= |u| + |r|
  {
    hide IsSpace, PhraseAt, LowerChar, IsPhraseChar, Inert, Barrier;
    var s := u + r + v;
    PhraseLetters(s, i, w);
    var last := i + |w| - 1;
    if |u| <= i < |u| + |r| {
      assert s[i] == r[i - |u|];
      InertIsNoLetter(s[i]);
    } else if |u| <= last < |u| + |r| {
      assert s[last] == r[last - |u|];
      InertIsNoLetter(s[last]);
    } else if i < |u| && last >= |u| + |r| {
      var k :| 0 <= k < |r| && Barrier(r[k]);
      assert s[|u| + k] == r[k];
      BarrierIsInert(s[|u| + k]);
    }
  }

  lemma SidePhrases(u: string, r: string, v: string, i: nat, w: Phrase)
    ensures i + |w| <= |u| ==> PhraseAt(u + r + v, i, w) == PhraseAt(u, i, w)
    ensures i <= |v| ==> PhraseAt(u + r + v, |u + r| + i, w) == PhraseAt(v, i, w)
  {
    if i <= |v| {
      ShiftPhrase(u + r, v, i, w);
    }
    if i + |w| <= |u| {
      assert (u + r + v)[..|u|] == u;
      assert forall k :: 0 <= k < |u| ==> (u + r + v)[k] == u[k];
    }
  }

  lemma SideBoundaries(u: string, r: string, v: string, i: nat)
    requires Separates(u, r, v) && (r != "" || v == "")
    ensures i <= |u| ==> Boundary(u + r + v, i) == Boundary(u, i)
    ensures i <= |v| && r != "" ==> Boundary(u + r + v, |u + r| + i) == Boundary(v, i)
  {
    hide Inert, Barrier, IsWordChar;
    var s := u + r + v;
    if r != "" {
      InertIsNoWordChar(r[0]);
      InertIsNoWordChar(r[|r| - 1]);
      if i <= |v| {
        ShiftBoundary(u + r, v, i);
      }
      if i == |u| {
        assert s[|u|] == r[0];
      }
    }
    if i <= |u| {
      assert i > 0 ==> s[i - 1] == u[i - 1];
      assert i < |u| ==> s[i] == u[i];
    }
  }

  lemma SaysPhraseOnOneSide(u: string, r: string, v: string, w: Phrase)
    requires Separates(u, r, v) && (r != "" || v == "")
    ensures SaysPhrase(u + r + v, w) <==> SaysPhrase(u, w) || SaysPhrase(v, w)
  {
    hide PhraseAt, Boundary, Separates;
    var s := u + r + v;
    if SaysPhrase(s, w) {
      var i :| 0 <= i <= |s| && PhraseAt(s, i, w) && Boundary(s, i) && Boundary(s, i + |w|);
      PhraseOnOneSide(u, r, v, i, w);
      PhraseFits(s, i, w);
      if i + |w| <= |u| {
        SidePhrases(u, r, v, i, w);
        SideBoundaries(u, r, v, i);
        SideBoundaries(u, r, v, i + |w|);
      } else {
        var k := i - |u + r|;
        SidePhrases(u, r, v, k, w);
        SideBoundaries(u, r, v, k);
        SideBoundaries(u, r, v, k + |w|);
        assert PhraseAt(v, k, w);
      }
    }
    if SaysPhrase(u, w) {
      var i :| 0 <= i <= |u| && PhraseAt(u, i, w) && Boundary(u, i) && Boundary(u, i + |w|);
      PhraseFits(u, i, w);
      SidePhrases(u, r, v, i, w);
      SideBoundaries(u, r, v, i);
      SideBoundaries(u, r, v, i + |w|);
      assert PhraseAt(s, i, w);
    }
    if SaysPhrase(v, w) {
      var i :| 0 <= i <= |v| && PhraseAt(v, i, w) && Boundary(v, i) && Boundary(v, i + |w|);
      PhraseFits(v, i, w);
      SidePhrases(u, r, v, i, w);
      SideBoundaries(u, r, v, i);
      SideBoundaries(u, r, v, i + |w|);
      assert PhraseAt(s, |u + r| + i, w);
    }
  }

  /** What is said on the two sides of a separation is what the whole says. */
  lemma SaysOnOneSide(u: string, r: string, v: string, phrases: seq<Phrase>)
    requires Separates(u, r, v) && (r != "" || v == "")
    ensures Says(u + r + v, phrases) <==> Says(u, phrases) || Says(v, phrases)
  {
    hide SaysPhrase, Separates;
    forall k | 0 <= k < |phrases|
      ensures SaysPhrase(u + r + v, phrases[k]) <==> SaysPhrase(u, phrases[k]) || SaysPhrase(v, phrases[k])
    {
      SaysPhraseOnOneSide(u, r, v, phrases[k]);
    }
  }

  // ------------------------------------------------------------------ the guarantee

  const DASH := " — "

  lemma DashSeparates(u: string, v: string)
    ensures Separates(u, DASH, v) && EndsInert(DASH) && StopsAt(DASH + v, 1)
    ensures Inert(DASH[0]) && Inert(DASH[1]) && Inert(DASH[2])
  {
    assert DASH[0] == ' ' && DASH[1] == '—' && DASH[2] == ' ';
    assert Barrier('—') && IsSpace(' ') && Inert(' ');
    assert (DASH + v)[0] == ' ' && (DASH + v)[1] == '—';
  }

  lemma ThreeInertKept(s: string, i: nat)
    requires i + 3 <= |s| && Inert(s[i]) && Inert(s[i + 1]) && Inert(s[i + 2])
    ensures Stripped(s, i) == s[i..i + 3] + Stripped(s, i + 3)
  {
    hide Stripped, Inert;
    InertKept(s, i);
    InertKept(s, i + 1);
    InertKept(s, i + 2);
  }

  lemma DashInside(x: string, y: string)
    ensures var s := x + DASH + y;
      |x| + 3 <= |s| && s[|x|..|x| + 3] == DASH && Inert(s[|x|]) && Inert(s[|x| + 1]) && Inert(s[|x| + 2])
  {
    hide Inert;
    DashSeparates(x, y);
    var s := x + DASH + y;
    assert s[|x|] == DASH[0] && s[|x| + 1] == DASH[1] && s[|x| + 2] == DASH[2];
  }

  /** Stripping works separately on the two sides of the dash. */
  lemma StrippedAtDash(x: string, y: string)
    ensures Stripped(x + DASH + y, 0) == Stripped(x, 0) + DASH + Stripped(y, 0)
  {
    hide Stripped, StopsAt, Separates, EndsInert, Inert;
    var s, p := x + DASH + y, x + DASH;
    DashSeparates(x, y);
    assert s == x + (DASH + y);
    LeftStripped(x, DASH + y, 1, 0);
    DashInside(x, y);
    ThreeInertKept(s, |x|);
    DashEndsInert(x);
    ShiftStripped(p, y, 0);
    assert |p| == |x| + 3;
  }

  lemma DashEndsInert(x: string)
    ensures EndsInert(x + DASH)
  {
    assert (x + DASH)[|x + DASH| - 1] == ' ';
  }

  /** A text joined by a dash names an action exactly when one of its halves does. */
  lemma NamesAtDash(x: string, y: string)
    ensures NamesNextAction(x + DASH + y) <==> NamesNextAction(x) || NamesNextAction(y)
  {
    hide Stripped, Says, Separates, ACTIONS;
    StrippedAtDash(x, y);
    DashSeparates(Stripped(x, 0), Stripped(y, 0));
    SaysOnOneSide(Stripped(x, 0), DASH, Stripped(y, 0), ACTIONS);
  }

  lemma {:induction false} BareSplits(s: string) returns (t: string)
    ensures s == Bare(s) + t && forall k :: 0 <= k < |t| ==> IsTrailing(t[k])
    ensures Bare(s) <= s
  {
    hide IsTrailing;
    if s != "" && IsTrailing(s[|s| - 1]) {
      t := BareSplits(s[..|s| - 1]);
      t := t + [s[|s| - 1]];
    } else {
      t := "";
    }
  }

  lemma {:induction false} TrailingStops(t: string) returns (m: nat)
    requires forall k :: 0 <= k < |t| ==> IsTrailing(t[k])
    ensures StopsAt(t, m)
  {
    hide IsTrailing, IsSpace, Barrier;
    m := 0;
    while m < |t| && IsSpace(t[m])
      invariant m <= |t| && forall k :: 0 <= k < m ==> IsSpace(t[k])
    {
      m := m + 1;
    }
    if m < |t| {
      TrailingIsInert(t[m]);
    }
  }

  /** Trailing punctuation neither adds nor hides an action. */
  lemma BareNamesAlike(s: string)
    ensures NamesNextAction(Bare(s)) == NamesNextAction(s)
  {
    hide Stripped, Says, ACTIONS, IsTrailing, Inert;
    var x := Bare(s);
    var t := BareSplits(s);
    var m := TrailingStops(t);
    forall k | 0 <= k < |t| ensures Inert(t[k]) {
      TrailingIsInert(t[k]);
    }
    LeftStripped(x, t, m, 0);
    assert forall k :: |x| <= k < |s| ==> s[k] == t[k - |x|];
    InertTailKept(s, |x|);
    assert s[|x|..] == t;
    assert Separates(Stripped(x, 0), t, "");
    SaysOnOneSide(Stripped(x, 0), t, "", ACTIONS);
    assert Stripped(x, 0) + t + "" == Stripped(x, 0) + t;
    NothingSaid(ACTIONS);
  }

  lemma NothingSaid(phrases: seq<Phrase>)
    ensures !Says("", phrases)
  {}

  /**
   * A message that names no action yet is made to name one exactly when the action appended names one.
   * The stripping of failure clauses never swallows any of it.
   */
  lemma RewritingNamesActionExactly(message: string, nextAction: string)
    ensures NamesNextAction(WithNextAction(message, nextAction)) <==>
      Trim(message) == "" || NamesNextAction(Trim(message)) || NamesNextAction(ActionText(nextAction))
  {
    hide NamesNextAction, Trim, ActionText, Bare;
    var trimmed := Trim(message);
    if trimmed == "" {
      UnknownFailureNamesAction();
    } else if !NamesNextAction(trimmed) {
      BareNamesAlike(trimmed);
      NamesAtDash(Bare(trimmed), ActionText(nextAction));
    }
  }

  predicate StartsNoFailure(c: char) {
    var l := LowerChar(c);
    l != 'f' && l != 'c' && l != 'u' && l != 'e'
  }

  lemma {:induction false} NoFailureStarts(s: string, i: nat, phrases: seq<Phrase>)
    requires i < |s| && forall k :: 0 <= k < |phrases| ==> phrases[k][0] != LowerChar(s[i])
    ensures FailureEnd(s, i, phrases) == i
  {
    if phrases != [] {
      assert !PhraseAt(s, i, phrases[0]) by {
        if PhraseAt(s, i, phrases[0]) {
          FirstLetter(s, i, phrases[0]);
        }
      }
      NoFailureStarts(s, i, phrases[1..]);
    }
  }

  lemma FirstLetter(s: string, i: nat, w: Phrase)
    requires PhraseAt(s, i, w)
    ensures LowerChar(s[i]) == w[0]
  {
    assert LowerChar(s[i + 0]) == w[0];
  }

  lemma FailureInitials()
    ensures forall k :: 0 <= k < |FAILURES| ==> FAILURES[k][0] in {'f', 'c', 'u', 'e'}
  {}

  /** A text in which no letter can open a failure clause is not changed by stripping. */
  lemma {:induction false} StrippedKeeps(s: string, i: nat)
    requires i <= |s| && forall k :: i <= k < |s| ==> StartsNoFailure(s[k])
    ensures Stripped(s, i) == s[i..]
    decreases |s| - i
  {
    hide FAILURES, LowerChar;
    if i < |s| {
      FailureInitials();
      NoFailureStarts(s, i, FAILURES);
      StrippedKeeps(s, i + 1);
    }
  }

  lemma TryIsAnAction()
    ensures |ACTIONS| > 0 && ACTIONS[0] == "try"
  {}

  lemma DefaultNamesAction()
    ensures NamesNextAction(DEFAULT_NEXT_ACTION)
  {
    hide ACTIONS, Stripped;
    var s := DEFAULT_NEXT_ACTION;
    assert forall k :: 0 <= k < |s| ==> StartsNoFailure(s[k]);
    StrippedKeeps(s, 0);
    assert s[0..] == s;
    TryIsAnAction();
    var w: Phrase := "try";
    assert PhraseAt(s, 0, w) && Boundary(s, 0) && Boundary(s, 3);
    assert SaysPhrase(s, w);
  }

  lemma UnknownFailureNamesAction()
    ensures NamesNextAction(UNKNOWN_FAILURE)
  {
    hide NamesNextAction;
    DefaultNamesAction();
    assert UNKNOWN_FAILURE == "Something went wrong" + DASH + DEFAULT_NEXT_ACTION;
    NamesAtDash("Something went wrong", DEFAULT_NEXT_ACTION);
  }

  lemma DefaultAction()
    ensures ActionText(DEFAULT_NEXT_ACTION) == DEFAULT_NEXT_ACTION
  {
    TrimResult(DEFAULT_NEXT_ACTION);
    assert DEFAULT_NEXT_ACTION[0] == 't' && DEFAULT_NEXT_ACTION[|DEFAULT_NEXT_ACTION| - 1] == '.';
  }

  /** With the default action every message, whatever it says, comes out naming a next action. */
  lemma DefaultRewritingNamesAction(message: string)
    ensures NamesNextAction(WithNextAction(message, DEFAULT_NEXT_ACTION))
  {
    hide NamesNextAction, WithNextAction, ActionText;
    DefaultAction();
    DefaultNamesAction();
    RewritingNamesActionExactly(message, DEFAULT_NEXT_ACTION);
  }

  lemma {:induction false} StrippedNoLonger(s: string, i: nat)
    requires i <= |s|
    ensures |Stripped(s, i)| <= |s| - i
    decreases |s| - i
  {
    hide FailureEnd, Boundary;
    if i < |s| {
      var j := if Boundary(s, i) then FailureEnd(s, i, FAILURES) else i;
      StrippedNoLonger(s, if j > i then j else i + 1);
    }
  }

  lemma ActionsAreLonger()
    ensures forall k :: 0 <= k < |ACTIONS| ==> |ACTIONS[k]| >= 3
  {}

  lemma TwoLettersNameNone(s: string)
    requires |s| <= 2
    ensures !NamesNextAction(s)
  {
    hide ACTIONS, Stripped;
    StrippedNoLonger(s, 0);
    ActionsAreLonger();
  }

  /** The promise does not hold for every action: an action that names none leaves the message without one. */
  lemma CustomActionMayNameNone()
    ensures WithNextAction("no", "ok") == "no — ok" && !NamesNextAction(WithNextAction("no", "ok"))
  {
    hide NamesNextAction;
    TwoLettersNameNone("no");
    TwoLettersNameNone("ok");
    TrimResult("no");
    TrimResult("ok");
    NamesAtDash("no", "ok");
    assert "no"[1] == 'o' && !IsTrailing('o');
  }

  /** A text of nothing but the punctuation and white space that is dropped from the end. */
  predicate OnlyPunctuation(s: string) {
    forall k :: 0 <= k < |s| ==> IsTrailing(s[k])
  }

  lemma {:induction false} BareEmptyExactly(s: string)
    ensures Bare(s) == "" <==> OnlyPunctuation(s)
  {
    hide IsTrailing;
    if s != "" && IsTrailing(s[|s| - 1]) {
      BareEmptyExactly(s[..|s| - 1]);
      assert s == s[..|s| - 1] + [s[|s| - 1]];
    }
  }

  /** Around a text only white space is trimmed, which is dropped from the end as well. */
  lemma PunctuationTrimmed(s: string)
    ensures OnlyPunctuation(Trim(s)) <==> OnlyPunctuation(s)
  {
    hide IsSpace, Trim;
    TrimResult(s);
    forall c | !IsSpace(c) ensures c in Trim(s) <==> c in s {
      TrimKeeps(s, c);
    }
    assert OnlyPunctuation(s) <==> forall c :: c in s ==> IsTrailing(c);
    assert OnlyPunctuation(Trim(s)) <==> forall c :: c in Trim(s) ==> IsTrailing(c);
  }

  /**
   * Rewriting twice with any action is rewriting once exactly when the message is blank, already names an action,
   * or is more than punctuation and the appended text names one.
   */
  lemma RewritingIdempotentExactly(message: string, nextAction: string)
    ensures var once := WithNextAction(message, nextAction);
      WithNextAction(once, nextAction) == once <==>
        || Trim(message) == "" || NamesNextAction(Trim(message))
        || (NamesNextAction(ActionText(nextAction)) && !OnlyPunctuation(message))
  {
    PunctuationTrimmed(message);
    BareEmptyExactly(Trim(message));
    hide OnlyPunctuation;
    var trimmed, action := Trim(message), ActionText(nextAction);
    TrimResult(message);
    hide NamesNextAction, Bare, Trim, ActionText;
    if trimmed == "" {
      UnknownIsTrimmed();
      UnknownFailureNamesAction();
      TrimResult(UNKNOWN_FAILURE);
    } else if NamesNextAction(trimmed) {
      TrimResult(trimmed);
    } else if Bare(trimmed) != "" {
      DashedTwice(trimmed, nextAction);
    } else {
      DashedAloneTwice(nextAction);
    }
  }

  /** The message of three dots is rewritten differently the second time. */
  lemma DotsRewrittenTwice()
    ensures var once := WithNextAction("...", DEFAULT_NEXT_ACTION);
      WithNextAction(once, DEFAULT_NEXT_ACTION) != once
  {
    hide NamesNextAction, WithNextAction, Trim;
    assert Trimmed("...") && OnlyPunctuation("...");
    TrimResult("...");
    DotsNameNone();
    RewritingIdempotentExactly("...", DEFAULT_NEXT_ACTION);
  }

  lemma DotsNameNone()
    ensures !NamesNextAction("...")
  {
    hide ACTIONS, Says, IsSpace;
    assert OnlyPunctuation("...");
    BareEmptyExactly("...");
    BareNamesAlike("...");
    NothingSaid(ACTIONS);
  }

  /** The appended text is never blank and has no white space around it. */
  lemma ActionTrimmed(nextAction: string)
    ensures ActionText(nextAction) != "" && Trimmed(ActionText(nextAction))
  {
    hide Trim;
    TrimResult(nextAction);
    assert DEFAULT_NEXT_ACTION[0] == 't' && DEFAULT_NEXT_ACTION[|DEFAULT_NEXT_ACTION| - 1] == '.';
  }

  /** Dropping trailing punctuation stops at the dash at the latest. */
  lemma {:induction false} BareKeepsDash(x: string, y: string)
    ensures x + "—" <= Bare(x + "—" + y)
  {
    hide IsTrailing;
    var s := x + "—" + y;
    DashIsNotTrailing();
    if y == "" {
      assert s[|s| - 1] == '—';
      assert Bare(s) == s;
    } else if IsTrailing(s[|s| - 1]) {
      assert s[..|s| - 1] == x + "—" + y[..|y| - 1];
      BareKeepsDash(x, y[..|y| - 1]);
    } else {
      assert Bare(s) == s;
    }
  }

  lemma DashIsNotTrailing()
    ensures !IsTrailing('—')
  {}

  /** A message with something before the dash is rewritten once more exactly when its action names none. */
  lemma DashedTwice(trimmed: string, nextAction: string)
    requires trimmed != "" && Trimmed(trimmed) && !NamesNextAction(trimmed) && Bare(trimmed) != ""
    ensures var once := Bare(trimmed) + DASH + ActionText(nextAction);
      WithNextAction(once, nextAction) == once <==> NamesNextAction(ActionText(nextAction))
  {
    hide NamesNextAction, Bare, Trim, IsSpace, ActionText;
    var action := ActionText(nextAction);
    var bare := Bare(trimmed);
    var once := bare + DASH + action;
    var t := BareSplits(trimmed);
    assert trimmed[0] == bare[0];
    ActionTrimmed(nextAction);
    assert once[0] == bare[0] && once[|once| - 1] == action[|action| - 1];
    TrimResult(once);
    NamesAtDash(bare, action);
    BareNamesAlike(trimmed);
    if !NamesNextAction(action) {
      var rest := " " + action;
      assert once == bare + " " + "—" + rest;
      BareKeepsDash(bare + " ", rest);
      assert |Bare(once)| > |bare|;
    }
  }

  /** A message of nothing but punctuation is always rewritten differently the second time. */
  lemma DashedAloneTwice(nextAction: string)
    ensures var once := "" + DASH + ActionText(nextAction);
      WithNextAction(once, nextAction) != once
  {
    hide NamesNextAction, Trim, ActionText;
    var action := ActionText(nextAction);
    var once, rest := "" + DASH + action, "— " + action;
    ActionTrimmed(nextAction);
    assert once == " " + rest;
    DashIsNoSpace();
    assert rest[0] == '—' && rest[|rest| - 1] == action[|action| - 1];
    TrimLeadingSpace(rest);
    assert once[0] == ' ' && Trim(once) == rest;
    var t := " " + action;
    assert rest == "" + "—" + t;
    BareKeepsDash("", t);
    assert ("" + "—")[0] == '—';
    assert WithNextAction(once, nextAction)[0] == '—';
  }

  lemma DashIsNoSpace()
    ensures !IsSpace('—')
  {}

  lemma TrimLeadingSpace(rest: string)
    requires Trimmed(rest)
    ensures Trim(" " + rest) == rest
  {
    var s := " " + rest;
    assert s[0] == ' ' && s[1..] == rest;
    assert TrimStart(s) == TrimStart(rest) == rest;
    TrimResult(rest);
  }

  lemma UnknownIsTrimmed()
    ensures Trimmed(UNKNOWN_FAILURE) && UNKNOWN_FAILURE != ""
  {
    assert UNKNOWN_FAILURE[0] == 'S' && UNKNOWN_FAILURE[|UNKNOWN_FAILURE| - 1] == '.';
  }

  /**
   * For any action: rules come out as written, trimmed; every other message comes out naming an
   * action exactly when it was blank, or it or the appended text names one.
   */
  lemma VoiceFailureGuarantee(message: string, nextAction: string)
    ensures var voiced := VoiceFailure(message, nextAction);
      if Trim(message) == "" || IsOperationalFailure(Trim(message)) then
        NamesNextAction(voiced) <==>
          Trim(message) == "" || NamesNextAction(Trim(message)) || NamesNextAction(ActionText(nextAction))
      else voiced == Trim(message)
  {
    TrimResult(message);
    hide NamesNextAction, WithNextAction, IsOperationalFailure, Trim, ActionText;
    UnknownFailureNamesAction();
    RewritingNamesActionExactly(Trim(message), nextAction);
    TrimResult(Trim(message));
  }

  /** With the default action, which names one, an operational failure always comes out naming an action. */
  lemma DefaultVoiceNamesAction(message: string)
    requires Trim(message) == "" || IsOperationalFailure(Trim(message))
    ensures NamesNextAction(VoiceFailure(message, DEFAULT_NEXT_ACTION))
  {
    hide NamesNextAction, VoiceFailure, IsOperationalFailure, Trim;
    VoiceFailureGuarantee(message, DEFAULT_NEXT_ACTION);
    DefaultAction();
    DefaultNamesAction();
  }
}
