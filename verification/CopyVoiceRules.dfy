/** The patterns of the copy rules read as text: whole words, failure clauses, and what a rewriting appends. */
module CopyVoiceRules {
  import opened Text
  import opened CopyVoice

  // ------------------------------------------------------------------ whole words

  /** A letter, a digit or an underscore, ASCII only. */
  predicate IsWordLetter(c: char) {
    'a' <= c <= 'z' || 'A' <= c <= 'Z' || '0' <= c <= '9' || c == '_'
  }

  /** The middle of `u + w + v` stands there as words of its own. */
  predicate StandsAlone(u: string, v: string) {
    (u == "" || !IsWordLetter(u[|u| - 1])) && (v == "" || !IsWordLetter(v[0]))
  }

  lemma WordLetters(c: char)
    ensures IsWordLetter(c) == IsWordChar(c)
    ensures IsLower(LowerChar(c)) ==> IsWordChar(c)
    ensures IsDigit(c) ==> IsWordChar(c)
  {}

  /** In front of a word character there is a boundary exactly where no other word character comes before it. */
  lemma BoundaryBefore(u: string, rest: string)
    requires rest != "" && IsWordChar(rest[0])
    ensures Boundary(u + rest, |u|) <==> u == "" || !IsWordLetter(u[|u| - 1])
  {
    hide IsWordChar, IsWordLetter;
    var s := u + rest;
    assert s[|u|] == rest[0];
    if u != "" {
      assert s[|u| - 1] == u[|u| - 1];
      WordLetters(u[|u| - 1]);
    }
  }

  /** Behind a word character there is a boundary exactly where no other word character follows. */
  lemma BoundaryAfter(front: string, v: string)
    requires front != "" && IsWordChar(front[|front| - 1])
    ensures Boundary(front + v, |front|) <==> v == "" || !IsWordLetter(v[0])
  {
    hide IsWordChar, IsWordLetter;
    var s := front + v;
    assert s[|front| - 1] == front[|front| - 1];
    if v != "" {
      assert s[|front|] == v[0];
      WordLetters(v[0]);
    }
  }

  /** A word that starts and ends with word characters stands alone exactly between two boundaries. */
  lemma AloneExactly(s: string, u: string, w: string, v: string)
    requires s == u + w + v && w != "" && IsWordChar(w[0]) && IsWordChar(w[|w| - 1])
    ensures StandsAlone(u, v) <==> Boundary(s, |u|) && Boundary(s, |u| + |w|)
  {
    hide IsWordChar, IsWordLetter, Boundary;
    var tail, front := w + v, u + w;
    assert s == u + tail && tail[0] == w[0];
    BoundaryBefore(u, tail);
    assert s == front + v && front[|front| - 1] == w[|w| - 1];
    BoundaryAfter(front, v);
  }

  lemma MiddleOf(s: string, u: string, w: string, v: string)
    requires s == u + w + v
    ensures |s| >= |u| + |w| && forall k :: 0 <= k < |w| ==> s[|u| + k] == w[k]
  {}

  /** Where a phrase is found, its letters in lower case are the phrase. */
  lemma FoundAtExactly(s: string, u: string, w: string, v: string, p: Phrase)
    requires s == u + w + v && |w| == |p|
    ensures PhraseAt(s, |u|, p) <==> Lower(w) == p
    ensures Lower(w) == p ==> IsWordChar(w[0]) && IsWordChar(w[|w| - 1])
  {
    hide LowerChar, IsPhraseChar, IsWordChar;
    var n := |u|;
    MiddleOf(s, u, w, v);
    if PhraseAt(s, n, p) {
      assert forall k :: 0 <= k < |w| ==> Lower(w)[k] == p[k];
    }
    if Lower(w) == p {
      assert forall k :: 0 <= k < |p| ==> LowerChar(s[n + k]) == Lower(w)[k];
      assert LowerChar(w[0]) == p[0] && LowerChar(w[|w| - 1]) == p[|p| - 1];
      WordLetters(w[0]);
      WordLetters(w[|w| - 1]);
    }
  }

  predicate SplitsAround(s: string, u: string, w: string, v: string, p: Phrase) {
    s == u + w + v && Lower(w) == p && StandsAlone(u, v)
  }

  /** A text says a phrase exactly when it is something, the phrase in any case of letters, and something more. */
  lemma SaysPhraseExactly(s: string, p: Phrase)
    ensures SaysPhrase(s, p) <==> exists u, w, v :: SplitsAround(s, u, w, v, p)
  {
    hide LowerChar, IsWordChar, IsWordLetter, Boundary, StandsAlone;
    if SaysPhrase(s, p) {
      var i :| 0 <= i <= |s| && PhraseAt(s, i, p) && Boundary(s, i) && Boundary(s, i + |p|);
      PhraseSplits(s, i, p);
    }
    if u, w, v :| SplitsAround(s, u, w, v, p) {
      FoundAtExactly(s, u, w, v, p);
      AloneExactly(s, u, w, v);
    }
  }

  lemma Cut(s: string, i: nat, n: nat)
    requires i + n <= |s|
    ensures s == s[..i] + s[i..i + n] + s[i + n..] && |s[..i]| == i && |s[i..i + n]| == n
  {}

  lemma PhraseSplits(s: string, i: nat, p: Phrase)
    requires i <= |s| && PhraseAt(s, i, p) && Boundary(s, i) && Boundary(s, i + |p|)
    ensures exists u, w, v :: SplitsAround(s, u, w, v, p)
  {
    PhraseFits(s, i, p);
    hide LowerChar, IsWordChar, IsWordLetter, Boundary, StandsAlone, PhraseAt, Lower;
    Cut(s, i, |p|);
    PhraseSplitsAt(s, s[..i], s[i..i + |p|], s[i + |p|..], p);
  }

  lemma PhraseSplitsAt(s: string, u: string, w: string, v: string, p: Phrase)
    requires s == u + w + v && |w| == |p|
    requires PhraseAt(s, |u|, p) && Boundary(s, |u|) && Boundary(s, |u| + |p|)
    ensures SplitsAround(s, u, w, v, p)
  {
    hide LowerChar, IsWordChar, IsWordLetter, Boundary, StandsAlone, PhraseAt, Lower;
    FoundAtExactly(s, u, w, v, p);
    AloneExactly(s, u, w, v);
  }

  /** The phrases that mark a failed operation. */
  predicate MarksFailure(p: string) {
    || p == "fail" || p == "failed" || p == "fails" || p == "failure" || p == "could not" || p == "couldn't"
    || p == "unable to" || p == "error" || p == "unexpected" || p == "went wrong" || p == "timed out"
    || p == "time out" || p == "timeout" || p == "network" || p == "unavailable" || p == "unreachable"
  }

  lemma OperationalPhrases(p: Phrase)
    ensures p in OPERATIONAL <==> MarksFailure(p)
  {
    assert p in FAILURE_WORDS <==>
      || p == "fail" || p == "failed" || p == "fails" || p == "failure"
      || p == "could not" || p == "couldn't" || p == "unable to" || p == "error";
    assert p in OUTAGE_WORDS <==>
      || p == "unexpected" || p == "went wrong" || p == "timed out" || p == "time out"
      || p == "timeout" || p == "network" || p == "unavailable" || p == "unreachable";
    hide FAILURE_WORDS, OUTAGE_WORDS;
  }

  /** Three digits, the first a 4 or a 5, that stand alone. */
  predicate CodeBetween(s: string, u: string, w: string, v: string) {
    && s == u + w + v && |w| == 3 && (w[0] == '4' || w[0] == '5') && IsDigit(w[1]) && IsDigit(w[2])
    && StandsAlone(u, v)
  }

  ghost predicate HoldsStatusCode(s: string) {
    exists u, w, v :: CodeBetween(s, u, w, v)
  }

  lemma CodeSplits(s: string, i: nat)
    requires i + 3 <= |s| && (s[i] == '4' || s[i] == '5') && IsDigit(s[i + 1]) && IsDigit(s[i + 2])
    requires Boundary(s, i) && Boundary(s, i + 3)
    ensures HoldsStatusCode(s)
  {
    hide IsWordChar, IsWordLetter, Boundary, StandsAlone;
    Cut(s, i, 3);
    var u, w, v := s[..i], s[i..i + 3], s[i + 3..];
    assert w[0] == s[i] && w[1] == s[i + 1] && w[2] == s[i + 2];
    WordLetters(w[0]);
    WordLetters(w[2]);
    AloneExactly(s, u, w, v);
    assert CodeBetween(s, u, w, v);
  }

  lemma CodeStands(s: string, u: string, w: string, v: string)
    requires CodeBetween(s, u, w, v)
    ensures var i := |u|;
      && i + 3 <= |s| && (s[i] == '4' || s[i] == '5') && IsDigit(s[i + 1]) && IsDigit(s[i + 2])
      && Boundary(s, i) && Boundary(s, i + 3)
  {
    hide IsWordChar, IsWordLetter, Boundary, StandsAlone;
    var i := |u|;
    assert s[i] == w[0] && s[i + 1] == w[1] && s[i + 2] == w[2];
    WordLetters(w[0]);
    WordLetters(w[2]);
    AloneExactly(s, u, w, v);
  }

  lemma StatusCodeExactly(s: string)
    ensures HasStatusCode(s) <==> HoldsStatusCode(s)
  {
    hide Boundary, HoldsStatusCode, CodeBetween, IsDigit;
    if HasStatusCode(s) {
      var i :| 0 <= i && i + 3 <= |s| && (s[i] == '4' || s[i] == '5') && IsDigit(s[i + 1]) && IsDigit(s[i + 2])
        && Boundary(s, i) && Boundary(s, i + 3);
      CodeSplits(s, i);
    }
    if HoldsStatusCode(s) {
      var u, w, v := CodeParts(s);
      CodeStands(s, u, w, v);
    }
  }

  lemma CodeParts(s: string) returns (u: string, w: string, v: string)
    requires HoldsStatusCode(s)
    ensures CodeBetween(s, u, w, v)
  {
    hide CodeBetween;
    u, w, v :| CodeBetween(s, u, w, v);
  }

  /** A message reports a failed operation exactly when it says one of the phrases or holds a status code. */
  lemma OperationalExactly(message: string)
    ensures IsOperationalFailure(message) <==>
      || (exists p: Phrase :: MarksFailure(p) && SaysPhrase(message, p))
      || HoldsStatusCode(message)
  {
    hide OPERATIONAL, MarksFailure, SaysPhrase, HasStatusCode, HoldsStatusCode;
    StatusCodeExactly(message);
    forall p: Phrase ensures p in OPERATIONAL <==> MarksFailure(p) {
      OperationalPhrases(p);
    }
    if Says(message, OPERATIONAL) {
      var k :| 0 <= k < |OPERATIONAL| && SaysPhrase(message, OPERATIONAL[k]);
      assert OPERATIONAL[k] in OPERATIONAL;
    }
    if p: Phrase :| MarksFailure(p) && SaysPhrase(message, p) {
      var k :| 0 <= k < |OPERATIONAL| && OPERATIONAL[k] == p;
    }
  }

  // ------------------------------------------------------------------ failure clauses

  /** The phrases that open a failure clause. */
  lemma FailurePhrases(p: Phrase)
    ensures p in FAILURES <==>
      || p == "failed to" || p == "could not" || p == "couldn't" || p == "cannot" || p == "can't"
      || p == "unable to" || p == "error while" || p == "error"
  {}

  /** A word of a clause: letters and hyphens. */
  predicate IsClauseWord(w: string) {
    w != "" && forall i :: 0 <= i < |w| ==> 'a' <= w[i] <= 'z' || 'A' <= w[i] <= 'Z' || w[i] == '-'
  }

  /** An opening in any case of letters, white space, a word, and what ends the word. */
  predicate IsClause(opening: string, gap: string, word: string, rest: string, k: nat) {
    && k < |FAILURES| && Lower(opening) == FAILURES[k]
    && gap != "" && AllSpace(gap) && IsClauseWord(word)
    && (rest == "" || !IsClauseWord([rest[0]]))
  }

  lemma ClauseChars(c: char)
    ensures IsClauseWord([c]) <==> IsClauseChar(c)
    ensures IsSpace(c) ==> !IsClauseChar(c)
  {
    assert [c][0] == c;
  }

  lemma {:induction false} GapEnds(s: string, i: nat, j: nat)
    requires i <= j <= |s| && forall k :: i <= k < j ==> IsSpace(s[k])
    requires j == |s| || !IsSpace(s[j])
    ensures SpaceEnd(s, i) == j
    decreases j - i
  {
    hide IsSpace;
    if i < j {
      GapEnds(s, i + 1, j);
    }
  }

  lemma {:induction false} WordEnds(s: string, i: nat, j: nat)
    requires i <= j <= |s| && forall k :: i <= k < j ==> IsClauseChar(s[k])
    requires j == |s| || !IsClauseChar(s[j])
    ensures ClauseEnd(s, i) == j
    decreases j - i
  {
    hide IsClauseChar;
    if i < j {
      WordEnds(s, i + 1, j);
    }
  }

  /** A phrase up to `n`, white space up to `m` and a word up to `j` are a clause that ends at `j`. */
  lemma ClauseUpTo(s: string, p: Phrase, m: nat, j: nat)
    requires PhraseAt(s, 0, p) && |p| < m < j <= |s|
    requires (forall i :: |p| <= i < m ==> IsSpace(s[i])) && (forall i :: m <= i < j ==> IsClauseChar(s[i]))
    requires j == |s| || !IsClauseChar(s[j])
    ensures ClauseOf(s, 0, p) == j
  {
    ClauseChars(s[m]);
    hide IsSpace, IsClauseChar, PhraseAt;
    GapEnds(s, |p|, m);
    WordEnds(s, m, j);
  }

  lemma WordOfClause(word: string, i: nat)
    requires IsClauseWord(word) && i < |word|
    ensures IsClauseChar(word[i])
  {
    assert IsClauseWord([word[i]]);
    ClauseChars(word[i]);
  }

  /** The four pieces of a text, found again by their positions. */
  lemma Pieces(s: string, opening: string, gap: string, word: string, rest: string)
    requires s == opening + gap + word + rest
    ensures var n, m, j := |opening|, |opening| + |gap|, |opening| + |gap| + |word|;
      && j <= |s| && (forall i :: 0 <= i < n ==> s[i] == opening[i])
      && (forall i :: n <= i < m ==> s[i] == gap[i - n]) && (forall i :: m <= i < j ==> s[i] == word[i - m])
      && (rest != "" ==> j < |s| && s[j] == rest[0]) && (rest == "" ==> j == |s|)
  {}

  lemma OpeningStands(s: string, opening: string, p: Phrase)
    requires |opening| <= |s| && (forall i :: 0 <= i < |opening| ==> s[i] == opening[i]) && Lower(opening) == p
    ensures PhraseAt(s, 0, p)
    ensures IsWordChar(opening[0])
  {
    assert LowerChar(opening[0]) == p[0];
    WordLetters(opening[0]);
    hide LowerChar, IsWordChar;
    assert forall k :: 0 <= k < |p| ==> LowerChar(s[0 + k]) == p[k];
  }

  /** The whole of the clause is found, and nothing beyond it. */
  lemma ClauseFound(s: string, opening: string, gap: string, word: string, rest: string, k: nat)
    requires IsClause(opening, gap, word, rest, k) && s == opening + gap + word + rest
    ensures ClauseOf(s, 0, FAILURES[k]) == |opening| + |gap| + |word|
  {
    var p := FAILURES[k];
    if rest != "" {
      ClauseChars(rest[0]);
    }
    WordNotEmpty(word);
    Pieces(s, opening, gap, word, rest);
    OpeningStands(s, opening, p);
    hide FAILURES, LowerChar, IsSpace, IsClauseChar, IsClauseWord, ClauseOf, PhraseAt, Lower, IsWordChar;
    var n, m, j := |opening|, |opening| + |gap|, |opening| + |gap| + |word|;
    forall i | n <= i < m ensures IsSpace(s[i]) {
      assert s[i] == gap[i - n];
    }
    forall i | m <= i < j ensures IsClauseChar(s[i]) {
      WordOfClause(word, i - m);
    }
    ClauseUpTo(s, p, m, j);
  }

  lemma WordNotEmpty(word: string)
    requires IsClauseWord(word)
    ensures word != ""
  {}

  lemma {:induction false} FirstThatFits(s: string, phrases: seq<Phrase>, k: nat)
    requires k < |phrases| && ClauseOf(s, 0, phrases[k]) > 0
    requires forall j :: 0 <= j < k ==> ClauseOf(s, 0, phrases[j]) == 0
    ensures FailureEnd(s, 0, phrases) == ClauseOf(s, 0, phrases[k])
  {
    hide ClauseOf;
    if k > 0 {
      assert phrases[1..][k - 1] == phrases[k];
      FirstThatFits(s, phrases[1..], k - 1);
    }
  }

  /**
   * A failure clause at the start of a text is replaced by one space, as long as no opening that is tried before
   * it makes a clause there too: the opening, the white space and the whole word go, and nothing else.
   */
  lemma ClauseIsStripped(s: string, opening: string, gap: string, word: string, rest: string, k: nat)
    requires IsClause(opening, gap, word, rest, k) && s == opening + gap + word + rest
    requires forall j :: 0 <= j < k ==> ClauseOf(s, 0, FAILURES[j]) == 0
    ensures Stripped(s, 0) == " " + Stripped(s, |opening| + |gap| + |word|)
  {
    hide FAILURES, ClauseOf, Stripped, PhraseAt;
    ClauseFound(s, opening, gap, word, rest, k);
    ClauseOpens(s, opening, gap, word, rest, k);
    StrippedFirst(s, k);
  }

  lemma ClauseOpens(s: string, opening: string, gap: string, word: string, rest: string, k: nat)
    requires IsClause(opening, gap, word, rest, k) && s == opening + gap + word + rest
    ensures s != "" && WordAt(s, 0) && |opening| + |gap| + |word| > 0
  {
    Pieces(s, opening, gap, word, rest);
    OpeningStands(s, opening, FAILURES[k]);
  }

  lemma StrippedFirst(s: string, k: nat)
    requires s != "" && WordAt(s, 0) && k < |FAILURES| && ClauseOf(s, 0, FAILURES[k]) > 0
    requires forall j :: 0 <= j < k ==> ClauseOf(s, 0, FAILURES[j]) == 0
    ensures Stripped(s, 0) == " " + Stripped(s, ClauseOf(s, 0, FAILURES[k]))
  {
    hide FAILURES, ClauseOf, Stripped;
    FirstThatFits(s, FAILURES, k);
    assert !WordAt(s, -1) && Boundary(s, 0);
    StrippedJump(s, ClauseOf(s, 0, FAILURES[k]));
  }

  lemma StrippedJump(s: string, j: nat)
    requires Boundary(s, 0) && s != "" && FailureEnd(s, 0, FAILURES) == j && 0 < j <= |s|
    ensures Stripped(s, 0) == " " + Stripped(s, j)
  {
    hide FAILURES, Boundary, FailureEnd;
  }

  /** A message of one failure clause and punctuation names no action, whatever its word is. */
  lemma FailureAloneNamesNone(s: string, opening: string, gap: string, word: string, rest: string, k: nat)
    requires IsClause(opening, gap, word, rest, k) && s == opening + gap + word + rest
    requires forall j :: 0 <= j < k ==> ClauseOf(s, 0, FAILURES[j]) == 0
    requires forall i :: 0 <= i < |rest| ==> IsTrailing(rest[i])
    ensures !NamesNextAction(s)
  {
    hide FAILURES, LowerChar, IsSpace, IsClauseChar, ClauseOf, IsWordChar, ACTIONS, Stripped, IsTrailing, IsClause;
    var n := |opening| + |gap| + |word|;
    ClauseIsStripped(s, opening, gap, word, rest, k);
    RestInert(s, opening + gap + word, rest);
    InertTailKept(s, n);
    assert s[n..] == rest;
    var left := " " + rest;
    forall i | 0 <= i < |left| ensures IsTrailing(left[i]) {
      SpaceTrails();
      assert i > 0 ==> left[i] == rest[i - 1];
    }
    OnlyTrailingSays(left);
  }

  lemma RestInert(s: string, front: string, rest: string)
    requires s == front + rest && forall i :: 0 <= i < |rest| ==> IsTrailing(rest[i])
    ensures forall i :: |front| <= i < |s| ==> Inert(s[i])
  {
    hide IsTrailing, Inert;
    forall i | |front| <= i < |s| ensures Inert(s[i]) {
      assert s[i] == rest[i - |front|];
      TrailingIsInert(rest[i - |front|]);
    }
  }

  lemma SpaceTrails()
    ensures IsTrailing(' ')
  {}

  lemma OnlyTrailingSays(s: string)
    requires forall i :: 0 <= i < |s| ==> IsTrailing(s[i])
    ensures !Says(s, ACTIONS)
  {
    hide ACTIONS, LowerChar, IsTrailing, Boundary;
    forall k, i | 0 <= k < |ACTIONS| && 0 <= i <= |s| ensures !PhraseAt(s, i, ACTIONS[k]) {
      if PhraseAt(s, i, ACTIONS[k]) {
        PhraseLetters(s, i, ACTIONS[k]);
        TrailingIsInert(s[i]);
        InertIsNoLetter(s[i]);
      }
    }
  }

  // ------------------------------------------------------------------ what is appended

  predicate IsDropped(c: char) {
    c == '.' || c == '!' || c == ':' || c == ';' || c == ',' || IsSpace(c)
  }

  /** `kept` and `dropped` are the text up to its trailing punctuation, and that punctuation. */
  predicate DropsEnd(s: string, kept: string, dropped: string) {
    && s == kept + dropped && (forall i :: 0 <= i < |dropped| ==> IsDropped(dropped[i]))
    && (kept == "" || !IsDropped(kept[|kept| - 1]))
  }

  /**
   * A blank message becomes the stock sentence and one that names an action is only trimmed; any other loses its
   * trailing punctuation and gains a dash and the trimmed action, or the default one.
   */
  lemma RewrittenExactly(message: string, nextAction: string)
    ensures var trimmed, result := Trim(message), WithNextAction(message, nextAction);
      && (trimmed == "" ==> result == "Something went wrong — try again.")
      && (trimmed != "" && NamesNextAction(trimmed) ==> result == trimmed)
      && (trimmed != "" && !NamesNextAction(trimmed) ==>
            exists kept, dropped :: DropsEnd(trimmed, kept, dropped)
              && result == kept + " — " + if AllSpace(nextAction) then "try again." else Trim(nextAction))
  {
    hide NamesNextAction, IsSpace, Trim, AllSpace;
    TrimEmptyExactly(nextAction);
    var trimmed := Trim(message);
    if trimmed != "" && !NamesNextAction(trimmed) {
      var dropped := BareSplits(trimmed);
      BareEnds(trimmed);
      assert DropsEnd(trimmed, Bare(trimmed), dropped);
    }
  }

  lemma {:induction false} BareEnds(s: string)
    ensures Bare(s) == "" || !IsDropped(Bare(s)[|Bare(s)| - 1])
  {
    hide IsSpace;
    if s != "" && IsTrailing(s[|s| - 1]) {
      BareEnds(s[..|s| - 1]);
    }
  }

  // ------------------------------------------------------------------ the phrases that name an action

  predicate NamesActionFirst(p: string) {
    || p == "try" || p == "retry" || p == "reload" || p == "refresh" || p == "check" || p == "select"
    || p == "choose" || p == "pick" || p == "enter" || p == "re-enter" || p == "reenter" || p == "add"
    || p == "create" || p == "link" || p == "connect" || p == "reconnect" || p == "sign in"
    || p == "sign out" || p == "log in" || p == "contact" || p == "ask" || p == "open" || p == "go to"
    || p == "use" || p == "fix" || p == "remove" || p == "wait" || p == "enable" || p == "allow"
    || p == "publish" || p == "import" || p == "run"
  }

  predicate NamesActionSecond(p: string) {
    || p == "save" || p == "paste" || p == "upload" || p == "rename" || p == "resolve" || p == "review"
    || p == "verify" || p == "confirm" || p == "copy" || p == "install" || p == "switch" || p == "close"
    || p == "provide" || p == "give" || p == "type" || p == "request" || p == "edit" || p == "restore"
    || p == "upgrade" || p == "adjust" || p == "clear" || p == "change" || p == "make sure"
    || p == "please" || p == "required" || p == "must" || p == "should" || p == "need to"
    || p == "needs to"
  }

  lemma TryVerbs(p: Phrase)
    ensures p in TRY_VERBS <==>
      || p == "try" || p == "retry" || p == "reload" || p == "refresh" || p == "check" || p == "select"
      || p == "choose" || p == "pick"
  {}

  lemma PickVerbs(p: Phrase)
    ensures p in PICK_VERBS <==>
      || p == "enter" || p == "re-enter" || p == "reenter" || p == "add" || p == "create" || p == "link"
      || p == "connect" || p == "reconnect"
  {}

  lemma LinkVerbs(p: Phrase)
    ensures p in LINK_VERBS <==>
      || p == "sign in" || p == "sign out" || p == "log in" || p == "contact" || p == "ask" || p == "open"
      || p == "go to" || p == "use"
  {}

  lemma FixVerbs(p: Phrase)
    ensures p in FIX_VERBS <==>
      || p == "fix" || p == "remove" || p == "wait" || p == "enable" || p == "allow" || p == "publish"
      || p == "import" || p == "run"
  {}

  lemma SaveVerbs(p: Phrase)
    ensures p in SAVE_VERBS <==>
      || p == "save" || p == "paste" || p == "upload" || p == "rename" || p == "resolve" || p == "review"
      || p == "verify" || p == "confirm"
  {}

  lemma ReviewVerbs(p: Phrase)
    ensures p in REVIEW_VERBS <==>
      || p == "copy" || p == "install" || p == "switch" || p == "close" || p == "provide" || p == "give"
      || p == "type" || p == "request"
  {}

  lemma GiveVerbs(p: Phrase)
    ensures p in GIVE_VERBS <==>
      || p == "edit" || p == "restore" || p == "upgrade" || p == "adjust" || p == "clear" || p == "change"
      || p == "make sure" || p == "please"
  {}

  lemma Requests(p: Phrase)
    ensures p in REQUESTS <==>
      || p == "required" || p == "must" || p == "should" || p == "need to" || p == "needs to"
  {}

  /** The phrases that count as advice. */
  lemma ActionPhrases(p: Phrase)
    ensures p in ACTIONS <==> NamesActionFirst(p) || NamesActionSecond(p)
  {
    hide TRY_VERBS, PICK_VERBS, LINK_VERBS, FIX_VERBS;
    hide SAVE_VERBS, REVIEW_VERBS, GIVE_VERBS, REQUESTS;
    TryVerbs(p);
    PickVerbs(p);
    LinkVerbs(p);
    FixVerbs(p);
    SaveVerbs(p);
    ReviewVerbs(p);
    GiveVerbs(p);
    Requests(p);
  }

  /** A message names an action exactly when it says such a phrase outside its failure clauses. */
  lemma NamesActionExactly(message: string)
    ensures NamesNextAction(message) <==> exists p: Phrase ::
      (NamesActionFirst(p) || NamesActionSecond(p)) && SaysPhrase(Stripped(message, 0), p)
  {
    hide ACTIONS, NamesActionFirst, NamesActionSecond, SaysPhrase, Stripped;
    forall p: Phrase ensures p in ACTIONS <==> NamesActionFirst(p) || NamesActionSecond(p) {
      ActionPhrases(p);
    }
    var s := Stripped(message, 0);
    if Says(s, ACTIONS) {
      var k :| 0 <= k < |ACTIONS| && SaysPhrase(s, ACTIONS[k]);
      assert ACTIONS[k] in ACTIONS;
    }
    if p: Phrase :| (NamesActionFirst(p) || NamesActionSecond(p)) && SaysPhrase(s, p) {
      var k :| 0 <= k < |ACTIONS| && ACTIONS[k] == p;
    }
  }

  /** `Failed to update.` is no advice to update. */
  lemma FailedToUpdateNamesNone()
    ensures !NamesNextAction("Failed to" + " " + "update" + ".")
  {
    assert FAILURES[0] == "failed to" && Lower("Failed to") == "failed to";
    assert IsClause("Failed to", " ", "update", ".", 0);
    FailureAloneNamesNone("Failed to" + " " + "update" + ".", "Failed to", " ", "update", ".", 0);
  }
}
