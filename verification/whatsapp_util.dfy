/**
 Shared vocabulary of the markup scanner: the marker characters, the flag record,
 the character classifier `IsFlagged`, the list-to-string copy `GetText`, and the
 same-line lookahead `HasFlagSameLine`.
 */
module WhatsappUtil {
  import opened Wrappers

  const NEW_LINE: char := '\n'
  const SPACE: char := ' '
  const BOLD_FLAG: char := '*'
  const STRIKE_FLAG: char := '~'
  const ITALIC_FLAG: char := '_'

  /** The sentinel the scanner stores in an unset pending start. */
  const INVALID_INDEX: int := -1

  /** The three styles; each is triggered by exactly one marker character. */
  datatype Kind = Bold | Strike | Italic

  function Marker(k: Kind): (c: char)
    ensures c != NEW_LINE && c != SPACE
  {
    match k
    case Bold => BOLD_FLAG
    case Strike => STRIKE_FLAG
    case Italic => ITALIC_FLAG
  }

  /** The kind a character triggers, if any. */
  function KindOf(c: char): (r: Option<Kind>)
    ensures forall k: Kind :: r == Some(k) <==> Marker(k) == c
  {
    if c == BOLD_FLAG then Some(Bold)
    else if c == STRIKE_FLAG then Some(Strike)
    else if c == ITALIC_FLAG then Some(Italic)
    else None
  }

  /**
   A recognised pair. `start` and `end` are indices into the scanner's OUTPUT text;
   `end` is exclusive, as it is handed to the span builder as the end of a range.
   */
  datatype Flag = Flag(kind: Kind, start: int, end: int)

  /**
   True for indices outside the text, and for spaces, newlines and marker characters
   inside it.
   */
  function IsFlagged(text: seq<char>, index: int): (r: bool)
    ensures !(0 <= index < |text|) ==> r
    ensures 0 <= index < |text| ==>
              (r <==> text[index] == SPACE || text[index] == NEW_LINE || KindOf(text[index]).Some?)
  {
    if INVALID_INDEX < index < |text| then
      var c := text[index];
      c == SPACE || c == NEW_LINE || c == BOLD_FLAG || c == ITALIC_FLAG || c == STRIKE_FLAG
    else
      true
  }

  /** Copies a list of characters into a fresh character array and returns it as a string. */
  method GetText(characters: seq<char>) returns (s: string)
    ensures |s| == |characters|
    ensures forall i :: 0 <= i < |characters| ==> s[i] == characters[i]
  {
    var chars := new char[|characters|];
    var i := 0;
    while i < chars.Length
      invariant 0 <= i <= chars.Length == |characters|
      invariant forall t :: 0 <= t < i ==> chars[t] == characters[t]
    {
      chars[i] := characters[i];
      i := i + 1;
    }
    s := chars[..];
  }

  /** Whether position `i` of `s` ends a same-line search for `f`. */
  predicate IsStop(s: seq<char>, f: char, i: nat)
    requires i < |s|
  {
    s[i] == NEW_LINE || s[i] == f
  }

  /**
   The first index at or after `k` holding a newline or `f`; `|s|` when there is none
   (and `k` itself when `k` is already past the end).
   */
  function FirstStop(s: seq<char>, f: char, k: nat): (m: nat)
    ensures k <= m
    ensures k <= |s| ==> m <= |s|
    ensures m < |s| ==> IsStop(s, f, m)
    ensures forall t :: k <= t < m && t < |s| ==> !IsStop(s, f, t)
    ensures m > |s| ==> m == k
    decreases |s| - k
  {
    if k >= |s| then k
    else if IsStop(s, f, k) then k
    else FirstStop(s, f, k + 1)
  }

  /**
   Whether a closing `f` lies on the same line after `fromIndex`: the first newline
   or `f` at or after `fromIndex` exists, is `f`, and is not at `fromIndex` itself.
   */
  predicate HasFlagSameLine(s: seq<char>, f: char, fromIndex: nat)
  {
    var m := FirstStop(s, f, fromIndex);
    m < |s| && s[m] != NEW_LINE && s[m] == f && m != fromIndex
  }

  /** The lookahead as a left-to-right loop that gives up at the first newline or `f`. */
  method HasFlagSameLineLoop(s: seq<char>, f: char, fromIndex: nat) returns (r: bool)
    ensures r == HasFlagSameLine(s, f, fromIndex)
  {
    var i := fromIndex;
    while i < |s|
      invariant fromIndex <= i
      invariant FirstStop(s, f, fromIndex) == FirstStop(s, f, i)
    {
      var c := s[i];
      if c == NEW_LINE {
        return false;
      }
      if c == f {
        return i != fromIndex;
      }
      i := i + 1;
    }
    return false;
  }

  lemma {:induction false} FirstStopIsFirst(s: seq<char>, f: char, k: nat, t: nat)
    requires k <= t < |s| && IsStop(s, f, t)
    ensures FirstStop(s, f, k) <= t
  {
  }

  /** Starting past the end of the text, the lookahead finds nothing. */
  lemma NoLookaheadPastEnd(s: seq<char>, f: char, fromIndex: nat)
    requires fromIndex >= |s|
    ensures !HasFlagSameLine(s, f, fromIndex)
  {
  }

  /** A flag right at `fromIndex` is an immediate stop, so two adjacent markers never open. */
  lemma AdjacentNeverOpens(s: seq<char>, f: char, fromIndex: nat)
    requires fromIndex < |s| && s[fromIndex] == f
    ensures !HasFlagSameLine(s, f, fromIndex)
  {
  }

  /** A newline met before any `f` makes the lookahead fail. */
  lemma NewlineBlocks(s: seq<char>, f: char, fromIndex: nat, t: nat)
    requires fromIndex <= t < |s| && s[t] == NEW_LINE
    requires forall u :: fromIndex <= u < t ==> s[u] != f
    ensures !HasFlagSameLine(s, f, fromIndex)
  {
    FirstStopIsFirst(s, f, fromIndex, t);
  }

  /**
   The lookahead succeeds exactly when some later position on the same line holds `f`
   and every position from `fromIndex` up to it holds neither a newline nor `f`.
   */
  lemma {:induction false} HasFlagSameLineWitness(s: seq<char>, f: char, fromIndex: nat)
    requires f != NEW_LINE
    ensures HasFlagSameLine(s, f, fromIndex) <==>
              exists m :: fromIndex < m < |s| && s[m] == f &&
                          forall u :: fromIndex <= u < m ==> s[u] != f && s[u] != NEW_LINE
  {
    if HasFlagSameLine(s, f, fromIndex) {
      var m := FirstStop(s, f, fromIndex);
      forall u | fromIndex <= u < m
        ensures s[u] != f && s[u] != NEW_LINE
      {
        assert !IsStop(s, f, u);
      }
    }
    if exists m :: fromIndex < m < |s| && s[m] == f &&
                   forall u :: fromIndex <= u < m ==> s[u] != f && s[u] != NEW_LINE {
      var m :| fromIndex < m < |s| && s[m] == f &&
               forall u :: fromIndex <= u < m ==> s[u] != f && s[u] != NEW_LINE;
      FirstStopIsFirst(s, f, fromIndex, m);
    }
  }
}
