/** The per-channel address extractor of the relay loop (index.js, lines 203-223):
    take the newest message of a channel, skip it when it is a reply, and otherwise
    take the first match of the address pattern /[1-9A-HJ-NP-Za-km-z]{32,44}/g. */
module AddressExtractor {
  import opened Wrappers

  /** The marker that the chat client prints at the top of a reply. */
  const ReplyMarker: string := "Replied to @"

  /** The repetition bounds of the address pattern. */
  const MinAddressLength: nat := 32
  const MaxAddressLength: nat := 44

  /** The character class [1-9A-HJ-NP-Za-km-z]: digits without 0, upper case
      without I and O, lower case without l. */
  predicate IsAddressChar(c: char) {
    ('1' <= c <= '9') || ('A' <= c <= 'H') || ('J' <= c <= 'N') || ('P' <= c <= 'Z')
    || ('a' <= c <= 'k') || ('m' <= c <= 'z')
  }

  ghost predicate AllAddressChars(s: string) {
    forall k :: 0 <= k < |s| ==> IsAddressChar(s[k])
  }

  function Min(a: nat, b: nat): nat {
    if a < b then a else b
  }

  // ---------------------------------------------------------------------------
  // String.prototype.includes

  /** `t` occurs in `s` at index `i`. */
  ghost predicate OccursAt(s: string, t: string, i: int) {
    0 <= i && i + |t| <= |s| && s[i..i + |t|] == t
  }

  /** `s.includes(t)`, computed by trying every start position from the left. */
  function Includes(s: string, t: string): bool
    decreases |s|
  {
    if |t| > |s| then false
    else if s[..|t|] == t then true
    else Includes(s[1..], t)
  }

  lemma {:induction false} IncludesIffOccurs(s: string, t: string)
    ensures Includes(s, t) <==> exists i :: OccursAt(s, t, i)
    decreases |s|
  {
    if |t| > |s| {
    } else if s[..|t|] == t {
      assert OccursAt(s, t, 0);
    } else {
      IncludesIffOccurs(s[1..], t);
      if i :| OccursAt(s, t, i) {
        assert i != 0;
        assert s[1..][i - 1..i - 1 + |t|] == s[i..i + |t|];
        assert OccursAt(s[1..], t, i - 1);
      }
      if i :| OccursAt(s[1..], t, i) {
        assert s[1..][i..i + |t|] == s[i + 1..i + 1 + |t|];
        assert OccursAt(s, t, i + 1);
      }
    }
  }

  // ---------------------------------------------------------------------------
  // String.prototype.match with the global address pattern

  /** The number of consecutive address characters in `s` starting at index `i`:
      the longest the greedy quantifier could go from there. */
  function RunLength(s: string, i: nat): (n: nat)
    requires i <= |s|
    ensures i + n <= |s|
    ensures forall k :: i <= k < i + n ==> IsAddressChar(s[k])
    ensures i + n == |s| || !IsAddressChar(s[i + n])
    decreases |s| - i
  {
    if i == |s| || !IsAddressChar(s[i]) then 0 else 1 + RunLength(s, i + 1)
  }

  /** The matches a global regex search of the address pattern reports from index `i`
      on: at each position the greedy {32,44} takes as many address characters as it
      can, up to 44; a match resumes the search just after it, a failure one
      character further. */
  function MatchesFrom(s: string, i: nat): (ms: seq<string>)
    requires i <= |s|
    ensures forall m :: m in ms ==>
      MinAddressLength <= |m| <= MaxAddressLength && AllAddressChars(m)
    decreases |s| - i
  {
    if i == |s| then []
    else
      var n := RunLength(s, i);
      if n >= MinAddressLength then
        var len := Min(n, MaxAddressLength);
        [s[i..i + len]] + MatchesFrom(s, i + len)
      else
        MatchesFrom(s, i + 1)
  }

  /** `s.match(/[1-9A-HJ-NP-Za-km-z]{32,44}/g)`: null when nothing matches, otherwise
      the non-empty array of all matches. */
  function GlobalMatch(s: string): (r: Option<seq<string>>)
    ensures r.Some? ==> |r.value| > 0
  {
    var ms := MatchesFrom(s, 0);
    if ms == [] then None else Some(ms)
  }

  // ---------------------------------------------------------------------------
  // The per-channel decision

  /** The candidate address of one channel's message list (index.js:203-208 and
      214-219): only the newest message is read, a reply yields nothing, and
      otherwise the first match of the pattern, if any, is the candidate. */
  function Candidate(messages: seq<string>): (r: Option<string>)
    ensures |messages| == 0 ==> r.None?
    ensures r.Some? ==>
      !Includes(messages[|messages| - 1], ReplyMarker)
      && MinAddressLength <= |r.value| <= MaxAddressLength
      && AllAddressChars(r.value)
  {
    if |messages| > 0 then
      var lastMessage := messages[|messages| - 1];
      if Includes(lastMessage, ReplyMarker) then None
      else
        match GlobalMatch(lastMessage)
        case None => None
        case Some(ms) => Some(ms[0])
    else
      None
  }

  // ---------------------------------------------------------------------------
  // What a match of the pattern is, independently of the engine

  /** `s[p..p+len]` is a match of the pattern. */
  ghost predicate IsMatchAt(s: string, p: int, len: int) {
    0 <= p && MinAddressLength <= len <= MaxAddressLength && p + len <= |s|
    && forall k :: p <= k < p + len ==> IsAddressChar(s[k])
  }

  /** `s[p..p+len]` is the leftmost match, and the longest one at that position:
      what a leftmost, greedy regex engine reports first. */
  ghost predicate IsFirstMatch(s: string, p: int, len: int) {
    IsMatchAt(s, p, len)
    && (forall q, l :: 0 <= q < p ==> !IsMatchAt(s, q, l))
    && (forall l :: IsMatchAt(s, p, l) ==> l <= len)
  }

  /** No match is longer than the run of address characters it starts. */
  lemma RunLengthCoversMatch(s: string, p: nat, len: int)
    requires IsMatchAt(s, p, len)
    ensures len <= RunLength(s, p)
  {
  }

  lemma {:induction false} MatchesFromFindsRun(s: string, i: nat, p: nat)
    requires i <= p <= |s| && RunLength(s, p) >= MinAddressLength
    ensures MatchesFrom(s, i) != []
    decreases p - i
  {
    if RunLength(s, i) < MinAddressLength {
      MatchesFromFindsRun(s, i + 1, p);
    }
  }

  /** `p` is the first position at or after `i` whose run of address characters is
      long enough for the pattern. */
  ghost predicate IsFirstRunFrom(s: string, i: nat, p: nat) {
    i <= p <= |s| && RunLength(s, p) >= MinAddressLength
    && forall q :: i <= q < p ==> RunLength(s, q) < MinAddressLength
  }

  /** The first match reported from `i` on starts at the first position at or after
      `i` with a run of at least 32 address characters, and is as long as that run
      allows. */
  lemma {:induction false} MatchesFromHead(s: string, i: nat) returns (p: nat)
    requires i <= |s| && MatchesFrom(s, i) != []
    ensures IsFirstRunFrom(s, i, p)
    ensures MatchesFrom(s, i)[0] == s[p..p + Min(RunLength(s, p), MaxAddressLength)]
    decreases |s| - i
  {
    assert i < |s|;
    if RunLength(s, i) < MinAddressLength {
      p := MatchesFromHead(s, i + 1);
    } else {
      p := i;
    }
  }

  /** The engine reports nothing exactly when the text holds no match, and otherwise
      reports the leftmost-longest match first. */
  lemma FirstMatchIsLeftmostLongest(s: string)
    ensures GlobalMatch(s).None? <==> forall p, l :: !IsMatchAt(s, p, l)
    ensures GlobalMatch(s).Some? ==>
      exists p, l :: IsFirstMatch(s, p, l) && GlobalMatch(s).value[0] == s[p..p + l]
  {
    if MatchesFrom(s, 0) == [] {
      forall p, l | IsMatchAt(s, p, l) ensures false {
        RunLengthCoversMatch(s, p, l);
        MatchesFromFindsRun(s, 0, p);
      }
    } else {
      var p := MatchesFromHead(s, 0);
      var len := Min(RunLength(s, p), MaxAddressLength);
      forall q, l | 0 <= q < p ensures !IsMatchAt(s, q, l) {
        if IsMatchAt(s, q, l) {
          RunLengthCoversMatch(s, q, l);
        }
      }
      forall l | IsMatchAt(s, p, l) ensures l <= len {
        RunLengthCoversMatch(s, p, l);
      }
      assert IsFirstMatch(s, p, len);
    }
  }

  /** There is at most one leftmost-longest match. */
  lemma FirstMatchUnique(s: string, p: int, l: int, p': int, l': int)
    requires IsFirstMatch(s, p, l) && IsFirstMatch(s, p', l')
    ensures p == p' && l == l'
  {
  }

  /** Whenever the text holds a match, the engine's first match is the leftmost-longest
      one. */
  lemma FirstMatchIsReported(s: string, p: int, l: int)
    requires IsFirstMatch(s, p, l)
    ensures GlobalMatch(s).Some? && GlobalMatch(s).value[0] == s[p..p + l]
  {
    FirstMatchIsLeftmostLongest(s);
    var p', l' :| IsFirstMatch(s, p', l') && GlobalMatch(s).value[0] == s[p'..p' + l'];
    FirstMatchUnique(s, p, l, p', l');
  }

  /** The first match starts a maximal run of address characters (the character
      before it, if any, is outside the alphabet) and takes min(44, run) characters
      of it. */
  lemma FirstMatchStartsRun(s: string, p: nat, l: int)
    requires IsFirstMatch(s, p, l)
    ensures p == 0 || !IsAddressChar(s[p - 1])
    ensures l == Min(RunLength(s, p), MaxAddressLength)
  {
    if p > 0 && IsAddressChar(s[p - 1]) {
      assert IsMatchAt(s, p - 1, MinAddressLength);
    }
    RunLengthCoversMatch(s, p, l);
    assert IsMatchAt(s, p, Min(RunLength(s, p), MaxAddressLength));
  }

  // ---------------------------------------------------------------------------
  // The candidate, stated against the independent definitions

  /** The newest message, as the source reads it. */
  function LastMessage(messages: seq<string>): string
    requires |messages| > 0
  {
    messages[|messages| - 1]
  }

  /** A candidate exists exactly when there is a message, the newest one carries no
      reply marker, and it holds a match; the candidate is then its leftmost-longest
      match. */
  lemma CandidateCharacterised(messages: seq<string>)
    ensures Candidate(messages).Some? <==>
      |messages| > 0
      && !(exists i :: OccursAt(LastMessage(messages), ReplyMarker, i))
      && exists p, l :: IsMatchAt(LastMessage(messages), p, l)
    ensures Candidate(messages).Some? ==>
      exists p, l :: IsFirstMatch(LastMessage(messages), p, l)
        && Candidate(messages).value == LastMessage(messages)[p..p + l]
  {
    if |messages| > 0 {
      IncludesIffOccurs(LastMessage(messages), ReplyMarker);
      FirstMatchIsLeftmostLongest(LastMessage(messages));
    }
  }

  /** A reply never yields a candidate, whatever address-like text it holds. */
  lemma ReplyYieldsNothing(messages: seq<string>, i: int)
    requires |messages| > 0 && OccursAt(LastMessage(messages), ReplyMarker, i)
    ensures Candidate(messages) == None
  {
    IncludesIffOccurs(LastMessage(messages), ReplyMarker);
  }

  /** Messages before the newest one never contribute. */
  lemma OnlyNewestMessageCounts(earlier: seq<string>, newest: string)
    ensures Candidate(earlier + [newest]) == Candidate([newest])
  {
  }

  /** A candidate never holds 0, O, I or l. */
  lemma CandidateExcludesLookalikes(messages: seq<string>)
    requires Candidate(messages).Some?
    ensures forall k :: 0 <= k < |Candidate(messages).value| ==>
      Candidate(messages).value[k] !in {'0', 'O', 'I', 'l'}
  {
  }

  /** An address standing on its own (nothing address-like before it, a separator on
      either side) in a message that is not a reply is exactly what is extracted. */
  lemma SeparatedAddressIsCandidate(pre: string, address: string, post: string)
    requires MinAddressLength <= |address| <= MaxAddressLength && AllAddressChars(address)
    requires pre == [] || !IsAddressChar(pre[|pre| - 1])
    requires post == [] || !IsAddressChar(post[0])
    requires forall p, l :: !IsMatchAt(pre, p, l)
    requires !Includes(pre + address + post, ReplyMarker)
    ensures Candidate([pre + address + post]) == Some(address)
  {
    var s := pre + address + post;
    var p, len := |pre|, |address|;
    assert s[p..p + len] == address;
    assert p > 0 ==> s[p - 1] == pre[p - 1];
    assert |post| > 0 ==> s[p + len] == post[0];
    forall q, l | 0 <= q < p && q + l <= p ensures !IsMatchAt(s, q, l) {
      assert IsMatchAt(s, q, l) ==> IsMatchAt(pre, q, l);
    }
    FirstMatchIsReported(s, p, len);
  }

  /** A text in which the first character of `t` never appears does not include `t`. */
  lemma MissingInitialExcludes(s: string, t: string)
    requires |t| > 0 && t[0] !in s
    ensures !Includes(s, t)
  {
    IncludesIffOccurs(s, t);
    assert forall i :: OccursAt(s, t, i) ==> s[i] == t[0];
  }

  lemma AllAddressCharsConcat(a: string, b: string)
    requires AllAddressChars(a) && AllAddressChars(b)
    ensures AllAddressChars(a + b)
  {
  }

  /** The address the relay sends once at start-up (index.js:184), kept as four
      pieces of eleven characters so that each piece can be checked on its own. */
  const SamplePieces: seq<string> := ["HPg5FxpeHbb", "dAePLxAykcN", "cPPX9uLSjPD", "Cj6J6MjkopX"]
  const SampleAddress: string := SamplePieces[0] + SamplePieces[1] + SamplePieces[2] + SamplePieces[3]

  /** A reply quoting an address yields no candidate. */
  lemma ReplyScenario()
    ensures Candidate([ReplyMarker + "alice: " + SampleAddress]) == None
  {
    var text := ReplyMarker + "alice: " + SampleAddress;
    assert text[..|ReplyMarker|] == ReplyMarker;
    ReplyYieldsNothing([text], 0);
  }

  lemma SamplePiece0InAlphabet()
    ensures AllAddressChars(SamplePieces[0])
  {
    assert RunLength("HPg5FxpeHbb", 7) == 4 && RunLength("HPg5FxpeHbb", 3) == 8;
    assert RunLength("HPg5FxpeHbb", 0) == 11;
  }

  lemma SamplePiece1InAlphabet()
    ensures AllAddressChars(SamplePieces[1])
  {
    assert RunLength("dAePLxAykcN", 7) == 4 && RunLength("dAePLxAykcN", 3) == 8;
    assert RunLength("dAePLxAykcN", 0) == 11;
  }

  lemma SamplePiece2InAlphabet()
    ensures AllAddressChars(SamplePieces[2])
  {
    assert RunLength("cPPX9uLSjPD", 7) == 4 && RunLength("cPPX9uLSjPD", 3) == 8;
    assert RunLength("cPPX9uLSjPD", 0) == 11;
  }

  lemma SamplePiece3InAlphabet()
    ensures AllAddressChars(SamplePieces[3])
  {
    assert RunLength("Cj6J6MjkopX", 7) == 4 && RunLength("Cj6J6MjkopX", 3) == 8;
    assert RunLength("Cj6J6MjkopX", 0) == 11;
  }

  /** The sample address lies in the alphabet and holds no 'R' (the reply marker's
      first character). */
  lemma SampleAddressWellFormed()
    ensures |SampleAddress| == MaxAddressLength
    ensures AllAddressChars(SampleAddress) && 'R' !in SampleAddress
  {
    SamplePiece0InAlphabet();
    SamplePiece1InAlphabet();
    SamplePiece2InAlphabet();
    SamplePiece3InAlphabet();
    AllAddressCharsConcat(SamplePieces[0], SamplePieces[1]);
    AllAddressCharsConcat(SamplePieces[0] + SamplePieces[1], SamplePieces[2]);
    AllAddressCharsConcat(SamplePieces[0] + SamplePieces[1] + SamplePieces[2], SamplePieces[3]);
    assert 'R' !in SamplePieces[0] && 'R' !in SamplePieces[1];
    assert 'R' !in SamplePieces[2] && 'R' !in SamplePieces[3];
  }

  /** An address between words is extracted whole. */
  lemma AddressScenario()
    ensures Candidate(["gm check this " + SampleAddress + " now"]) == Some(SampleAddress)
  {
    var pre, post := "gm check this ", " now";
    SampleAddressWellFormed();
    assert ReplyMarker[0] == 'R';
    assert 'R' !in pre && 'R' !in post && 'R' !in SampleAddress;
    MissingInitialExcludes(pre + SampleAddress + post, ReplyMarker);
    assert pre[13] == ' ' && post[0] == ' ';
    SeparatedAddressIsCandidate(pre, SampleAddress, post);
  }
}
