/**
 Properties of the scanner of module ScanSpec: invariants kept by every `Step`,
 proved by induction over the number of characters consumed, and the facts about
 a whole scan that follow from them.
 */
module ScanProperties {
  import opened Wrappers
  import opened WhatsappUtil
  import opened ScanSpec

  /** The next newline-or-marker for kind `k` from position `n` exists and is the marker. */
  predicate CloserAhead(text: seq<char>, k: Kind, n: nat)
  {
    var m := FirstStop(text, Marker(k), n);
    m < |text| && text[m] == Marker(k)
  }

  function PendingCount(p: Pending): nat
  {
    (if p.bold.Some? then 1 else 0) + (if p.strike.Some? then 1 else 0) + (if p.italic.Some? then 1 else 0)
  }

  /** Flags are listed in closing order, and two flags of one kind never overlap. */
  predicate ClosingOrder(flags: seq<Flag>)
  {
    forall a, b :: 0 <= a < b < |flags| ==>
      && flags[a].end <= flags[b].end
      && (flags[a].kind == flags[b].kind ==> flags[a].end <= flags[b].start)
  }

  /** `out[lo..hi)` holds neither a newline nor the marker of `k`. */
  predicate Clean(out: seq<char>, k: Kind, lo: int, hi: int)
    requires 0 <= lo && hi <= |out|
  {
    forall t :: lo <= t < hi ==> out[t] != Marker(k) && out[t] != NEW_LINE
  }

  /** `a` can be obtained from `b` by deleting characters. */
  predicate IsSubsequence(a: seq<char>, b: seq<char>)
    decreases |b|
  {
    || a == []
    || (&& b != []
        && (|| (a[|a| - 1] == b[|b| - 1] && IsSubsequence(a[..|a| - 1], b[..|b| - 1]))
            || IsSubsequence(a, b[..|b| - 1])))
  }

  predicate NoMarkers(text: seq<char>)
  {
    forall t :: 0 <= t < |text| ==> KindOf(text[t]).None?
  }

  // ---------------------------------------------------------------------------
  // Display mode

  predicate DisplayFlagOK(out: seq<char>, f: Flag)
  {
    0 <= f.start <= f.end <= |out| && Clean(out, f.kind, f.start, f.end)
  }

  predicate DisplaySlotOK(text: seq<char>, n: nat, st: State, k: Kind)
  {
    match st.pending.Get(k)
    case None => true
    case Some(s) =>
      && s <= |st.out|
      && Clean(st.out, k, s, |st.out|)
      && CloserAhead(text, k, n)
      && forall q :: 0 <= q < |st.flags| && st.flags[q].kind == k ==> st.flags[q].end <= s
  }

  predicate DisplayInv(text: seq<char>, n: nat, st: State)
  {
    && |st.out| + 2 * |st.flags| + PendingCount(st.pending) == n
    && (forall q :: 0 <= q < |st.flags| ==> DisplayFlagOK(st.out, st.flags[q]))
    && ClosingOrder(st.flags)
    && forall k :: DisplaySlotOK(text, n, st, k)
  }

  /** A character other than the marker of a pending kind is not a newline, and the closer stays ahead. */
  lemma CloserAheadAdvances(text: seq<char>, k: Kind, n: nat)
    requires n < |text| && CloserAhead(text, k, n) && text[n] != Marker(k)
    ensures text[n] != NEW_LINE
    ensures CloserAhead(text, k, n + 1)
    ensures FirstStop(text, Marker(k), n + 1) == FirstStop(text, Marker(k), n)
  {
  }

  /** Appending a character that is neither a newline nor the marker keeps a range clean. */
  lemma CleanAppend(out: seq<char>, k: Kind, lo: nat, c: char)
    requires lo <= |out| && Clean(out, k, lo, |out|)
    requires c != Marker(k) && c != NEW_LINE
    ensures Clean(out + [c], k, lo, |out| + 1)
  {
  }

  lemma FlagsSurviveAppend(out: seq<char>, flags: seq<Flag>, c: char)
    requires forall q :: 0 <= q < |flags| ==> DisplayFlagOK(out, flags[q])
    ensures forall q :: 0 <= q < |flags| ==> DisplayFlagOK(out + [c], flags[q])
  {
    forall q | 0 <= q < |flags|
      ensures DisplayFlagOK(out + [c], flags[q])
    {
      assert DisplayFlagOK(out, flags[q]);
    }
  }

  /** Literal emission: every pending kind sees a non-marker, non-newline character appended. */
  lemma DisplayLiteralStep(text: seq<char>, n: nat, st: State)
    requires n < |text| && DisplayInv(text, n, st)
    requires forall k :: st.pending.Get(k).Some? ==> text[n] != Marker(k)
    ensures DisplayInv(text, n + 1, st.(out := st.out + [text[n]]))
  {
    var c := text[n];
    var st' := st.(out := st.out + [c]);
    var n' := n + 1;
    FlagsSurviveAppend(st.out, st.flags, c);
    forall k
      ensures DisplaySlotOK(text, n', st', k)
    {
      assert DisplaySlotOK(text, n, st, k);
      if st.pending.Get(k).Some? {
        CloserAheadAdvances(text, k, n);
        CleanAppend(st.out, k, st.pending.Get(k).value, c);
      }
    }
  }

  /** A kind untouched by the step at `n` keeps its display slot invariant. */
  lemma DisplaySlotCarries(text: seq<char>, n: nat, st: State, st': State, k: Kind)
    requires n < |text| && DisplaySlotOK(text, n, st, k)
    requires text[n] != Marker(k)
    requires st'.out == st.out && st'.pending.Get(k) == st.pending.Get(k)
    requires forall q :: 0 <= q < |st'.flags| && st'.flags[q].kind == k ==>
               q < |st.flags| && st'.flags[q] == st.flags[q]
    ensures DisplaySlotOK(text, n + 1, st', k)
  {
    if st.pending.Get(k).Some? {
      CloserAheadAdvances(text, k, n);
    }
  }

  lemma DisplayCloseStep(text: seq<char>, n: nat, st: State, k: Kind, s: nat)
    requires n < |text| && DisplayInv(text, n, st)
    requires text[n] == Marker(k) && st.pending.Get(k) == Some(s)
    ensures DisplayInv(text, n + 1, State(st.out, st.flags + [Flag(k, s, |st.out|)], st.pending.Set(k, None)))
  {
    var f := Flag(k, s, |st.out|);
    var st' := State(st.out, st.flags + [f], st.pending.Set(k, None));
    var n' := n + 1;
    assert DisplaySlotOK(text, n, st, k);
    assert DisplayFlagOK(st.out, f);
    forall k' | k' != k
      ensures DisplaySlotOK(text, n', st', k')
    {
      DisplaySlotCarries(text, n, st, st', k');
    }
    assert DisplaySlotOK(text, n', st', k);
  }

  lemma DisplayOpenStep(text: seq<char>, n: nat, st: State, k: Kind)
    requires n < |text| && DisplayInv(text, n, st)
    requires text[n] == Marker(k) && st.pending.Get(k).None?
    requires HasFlagSameLine(text, Marker(k), n + 1)
    ensures DisplayInv(text, n + 1, st.(pending := st.pending.Set(k, Some(|st.out|))))
  {
    var st' := st.(pending := st.pending.Set(k, Some(|st.out|)));
    var n' := n + 1;
    forall k' | k' != k
      ensures DisplaySlotOK(text, n', st', k')
    {
      DisplaySlotCarries(text, n, st, st', k');
    }
    assert forall q :: 0 <= q < |st.flags| ==> DisplayFlagOK(st.out, st.flags[q]);
    assert DisplaySlotOK(text, n', st', k);
  }

  lemma DisplayStep(text: seq<char>, n: nat)
    requires n < |text| && DisplayInv(text, n, ScanTo(Display, text, n))
    ensures DisplayInv(text, n + 1, ScanTo(Display, text, n + 1))
  {
    var st := ScanTo(Display, text, n);
    assert ScanTo(Display, text, n + 1) == Step(Display, text, st, n);
    var c := text[n];
    match KindOf(c)
    case None =>
      DisplayLiteralStep(text, n, st);
    case Some(k) =>
      match st.pending.Get(k)
      case Some(s) =>
        DisplayCloseStep(text, n, st, k, s);
      case None =>
        if HasFlagSameLine(text, c, n + 1) {
          DisplayOpenStep(text, n, st, k);
        } else {
          DisplayLiteralStep(text, n, st);
        }
  }

  lemma {:induction false} DisplayInvariant(text: seq<char>, n: nat)
    requires n <= |text|
    ensures DisplayInv(text, n, ScanTo(Display, text, n))
  {
    if n > 0 {
      DisplayInvariant(text, n - 1);
      DisplayStep(text, n - 1);
    }
  }

  // ---------------------------------------------------------------------------
  // Edit mode

  /**
   An edit-mode flag sits strictly inside the text between two copies of its marker,
   and its end is the first newline-or-marker after its start.
   */
  predicate EditFlagOK(text: seq<char>, f: Flag)
  {
    && 1 <= f.start < f.end < |text|
    && text[f.start - 1] == Marker(f.kind)
    && text[f.end] == Marker(f.kind)
    && FirstStop(text, Marker(f.kind), f.start) == f.end
  }

  predicate EditSlotOK(text: seq<char>, n: nat, st: State, k: Kind)
    requires n <= |text|
  {
    match st.pending.Get(k)
    case None => true
    case Some(s) =>
      && 1 <= s <= n
      && text[s - 1] == Marker(k)
      && (var m := FirstStop(text, Marker(k), s);
          s < m && n <= m && m < |text| && text[m] == Marker(k))
      && forall q :: 0 <= q < |st.flags| && st.flags[q].kind == k ==> st.flags[q].end < s
  }

  predicate EditInv(text: seq<char>, n: nat, st: State)
    requires n <= |text|
  {
    && st.out == text[..n]
    && (forall q :: 0 <= q < |st.flags| ==> EditFlagOK(text, st.flags[q]) && st.flags[q].end < n)
    && ClosingOrder(st.flags)
    && forall k :: EditSlotOK(text, n, st, k)
  }

  /** A kind untouched by the step at `n` keeps its slot invariant (its closer lies further on). */
  lemma EditSlotCarries(text: seq<char>, n: nat, st: State, st': State, k: Kind)
    requires n < |text| && EditSlotOK(text, n, st, k)
    requires text[n] != Marker(k)
    requires st'.pending.Get(k) == st.pending.Get(k)
    requires forall q :: 0 <= q < |st'.flags| && st'.flags[q].kind == k ==>
               q < |st.flags| && st'.flags[q] == st.flags[q]
    ensures EditSlotOK(text, n + 1, st', k)
  {
  }

  lemma EditLiteralStep(text: seq<char>, n: nat, st: State)
    requires n < |text| && EditInv(text, n, st)
    requires forall k :: st.pending.Get(k).Some? ==> text[n] != Marker(k)
    ensures EditInv(text, n + 1, st.(out := st.out + [text[n]]))
  {
    var st' := st.(out := st.out + [text[n]]);
    var n' := n + 1;
    assert text[..n'] == text[..n] + [text[n]];
    forall k
      ensures EditSlotOK(text, n', st', k)
    {
      assert EditSlotOK(text, n, st, k);
    }
  }

  lemma EditCloseStep(text: seq<char>, n: nat, st: State, k: Kind, s: nat)
    requires n < |text| && EditInv(text, n, st)
    requires text[n] == Marker(k) && st.pending.Get(k) == Some(s)
    ensures EditInv(text, n + 1, State(st.out + [text[n]], st.flags + [Flag(k, s, n)], st.pending.Set(k, None)))
  {
    var f := Flag(k, s, n);
    var st' := State(st.out + [text[n]], st.flags + [f], st.pending.Set(k, None));
    var n' := n + 1;
    assert text[..n'] == text[..n] + [text[n]];
    assert EditSlotOK(text, n, st, k);
    FirstStopIsFirst(text, Marker(k), s, n);
    assert EditFlagOK(text, f);
    forall k' | k' != k
      ensures EditSlotOK(text, n', st', k')
    {
      EditSlotCarries(text, n, st, st', k');
    }
    assert EditSlotOK(text, n', st', k);
  }

  lemma EditOpenStep(text: seq<char>, n: nat, st: State, k: Kind)
    requires n < |text| && EditInv(text, n, st)
    requires text[n] == Marker(k) && st.pending.Get(k).None?
    requires HasFlagSameLine(text, Marker(k), n + 1)
    ensures EditInv(text, n + 1, State(st.out + [text[n]], st.flags, st.pending.Set(k, Some(|st.out| + 1))))
  {
    var st' := State(st.out + [text[n]], st.flags, st.pending.Set(k, Some(|st.out| + 1)));
    var n' := n + 1;
    assert text[..n'] == text[..n] + [text[n]];
    forall k' | k' != k
      ensures EditSlotOK(text, n', st', k')
    {
      EditSlotCarries(text, n, st, st', k');
    }
    assert EditSlotOK(text, n', st', k);
  }

  lemma EditStep(text: seq<char>, n: nat)
    requires n < |text| && EditInv(text, n, ScanTo(Edit, text, n))
    ensures EditInv(text, n + 1, ScanTo(Edit, text, n + 1))
  {
    var st := ScanTo(Edit, text, n);
    assert ScanTo(Edit, text, n + 1) == Step(Edit, text, st, n);
    var c := text[n];
    match KindOf(c)
    case None =>
      EditLiteralStep(text, n, st);
    case Some(k) =>
      match st.pending.Get(k)
      case Some(s) =>
        assert |st.out| == n;
        EditCloseStep(text, n, st, k, s);
      case None =>
        if HasFlagSameLine(text, c, n + 1) {
          EditOpenStep(text, n, st, k);
        } else {
          EditLiteralStep(text, n, st);
        }
  }

  lemma {:induction false} EditInvariant(text: seq<char>, n: nat)
    requires n <= |text|
    ensures EditInv(text, n, ScanTo(Edit, text, n))
  {
    if n > 0 {
      EditInvariant(text, n - 1);
      EditStep(text, n - 1);
    }
  }

  // ---------------------------------------------------------------------------
  // Agreement of the two modes

  /** `Kept(text, n)[p]` is the number of characters display mode has emitted after `p` input characters. */
  function Kept(text: seq<char>, n: nat): (kept: seq<nat>)
    requires n <= |text|
    ensures |kept| == n + 1
    ensures kept[n] == |ScanTo(Display, text, n).out|
    decreases n
  {
    if n == 0 then [0]
    else Kept(text, n - 1) + [|ScanTo(Display, text, n).out|]
  }

  lemma {:induction false} KeptIsHistory(text: seq<char>, n: nat)
    requires n <= |text|
    ensures forall p :: 0 <= p <= n ==> Kept(text, n)[p] == |ScanTo(Display, text, p).out|
  {
    if n > 0 {
      KeptIsHistory(text, n - 1);
      assert forall p :: 0 <= p < n ==> Kept(text, n)[p] == Kept(text, n - 1)[p];
    }
  }

  /**
   Display flag `fd` is edit flag `fe` seen through the display output: its start is the
   number of characters display keeps before the opening marker (input index
   `fe.start - 1`), its end the number kept before the closing marker (input index `fe.end`).
   */
  predicate AgreeFlag(kept: seq<nat>, fd: Flag, fe: Flag)
  {
    && 1 <= fe.start <= fe.end < |kept|
    && fd.kind == fe.kind
    && fd.start == kept[fe.start - 1]
    && fd.end == kept[fe.end]
  }

  predicate AgreeSlot(kept: seq<nat>, pd: Option<nat>, pe: Option<nat>)
  {
    && pd.Some? == pe.Some?
    && (pe.Some? ==> 1 <= pe.value < |kept| && pd.value == kept[pe.value - 1])
  }

  predicate Agree(kept: seq<nat>, d: State, e: State)
  {
    && |d.flags| == |e.flags|
    && (forall q :: 0 <= q < |d.flags| ==> AgreeFlag(kept, d.flags[q], e.flags[q]))
    && forall k :: AgreeSlot(kept, d.pending.Get(k), e.pending.Get(k))
  }

  /** Growing the history keeps every agreement already established. */
  lemma AgreeExtends(kept: seq<nat>, x: nat, d: State, e: State, d': State, e': State)
    requires Agree(kept, d, e)
    requires d'.flags == d.flags && d'.pending == d.pending
    requires e'.flags == e.flags && e'.pending == e.pending
    ensures Agree(kept + [x], d', e')
  {
    var kept' := kept + [x];
    forall k
      ensures AgreeSlot(kept', d'.pending.Get(k), e'.pending.Get(k))
    {
      assert AgreeSlot(kept, d.pending.Get(k), e.pending.Get(k));
    }
    forall q | 0 <= q < |d'.flags|
      ensures AgreeFlag(kept', d'.flags[q], e'.flags[q])
    {
      assert AgreeFlag(kept, d.flags[q], e.flags[q]);
    }
  }

  lemma AgreeClose(kept: seq<nat>, d: State, e: State, k: Kind, sd: nat, se: nat, c: char)
    requires Agree(kept, d, e) && |kept| > 0 && kept[|kept| - 1] == |d.out| && |e.out| == |kept| - 1
    requires d.pending.Get(k) == Some(sd) && e.pending.Get(k) == Some(se)
    ensures Agree(kept + [|d.out|],
                  State(d.out, d.flags + [Flag(k, sd, |d.out|)], d.pending.Set(k, None)),
                  State(e.out + [c], e.flags + [Flag(k, se, |e.out|)], e.pending.Set(k, None)))
  {
    var d' := State(d.out, d.flags + [Flag(k, sd, |d.out|)], d.pending.Set(k, None));
    var e' := State(e.out + [c], e.flags + [Flag(k, se, |e.out|)], e.pending.Set(k, None));
    var kept' := kept + [|d.out|];
    AgreeExtends(kept, |d.out|, d, e, d, e);
    assert AgreeSlot(kept, d.pending.Get(k), e.pending.Get(k));
    assert AgreeFlag(kept', d'.flags[|d.flags|], e'.flags[|e.flags|]);
    forall k' | k' != k
      ensures AgreeSlot(kept', d'.pending.Get(k'), e'.pending.Get(k'))
    {
      assert AgreeSlot(kept', d.pending.Get(k'), e.pending.Get(k'));
    }
    assert AgreeSlot(kept', d'.pending.Get(k), e'.pending.Get(k));
    forall q | 0 <= q < |d'.flags|
      ensures AgreeFlag(kept', d'.flags[q], e'.flags[q])
    {
      if q < |d.flags| {
        assert AgreeFlag(kept', d.flags[q], e.flags[q]);
      }
    }
  }

  lemma AgreeOpen(kept: seq<nat>, d: State, e: State, k: Kind, c: char)
    requires Agree(kept, d, e) && |kept| > 0 && kept[|kept| - 1] == |d.out| && |e.out| == |kept| - 1
    requires d.pending.Get(k).None? && e.pending.Get(k).None?
    ensures Agree(kept + [|d.out|],
                  d.(pending := d.pending.Set(k, Some(|d.out|))),
                  State(e.out + [c], e.flags, e.pending.Set(k, Some(|e.out| + 1))))
  {
    var d' := d.(pending := d.pending.Set(k, Some(|d.out|)));
    var e' := State(e.out + [c], e.flags, e.pending.Set(k, Some(|e.out| + 1)));
    var kept' := kept + [|d.out|];
    AgreeExtends(kept, |d.out|, d, e, d, e);
    forall k' | k' != k
      ensures AgreeSlot(kept', d'.pending.Get(k'), e'.pending.Get(k'))
    {
      assert AgreeSlot(kept', d.pending.Get(k'), e.pending.Get(k'));
    }
    assert AgreeSlot(kept', d'.pending.Get(k), e'.pending.Get(k));
    forall q | 0 <= q < |d'.flags|
      ensures AgreeFlag(kept', d'.flags[q], e'.flags[q])
    {
      assert AgreeFlag(kept', d.flags[q], e.flags[q]);
    }
  }

  lemma AgreeStep(text: seq<char>, n: nat)
    requires n < |text|
    requires Agree(Kept(text, n), ScanTo(Display, text, n), ScanTo(Edit, text, n))
    ensures Agree(Kept(text, n + 1), ScanTo(Display, text, n + 1), ScanTo(Edit, text, n + 1))
  {
    var kept := Kept(text, n);
    var d, e := ScanTo(Display, text, n), ScanTo(Edit, text, n);
    var d', e' := ScanTo(Display, text, n + 1), ScanTo(Edit, text, n + 1);
    assert d' == Step(Display, text, d, n) && e' == Step(Edit, text, e, n);
    assert Kept(text, n + 1) == kept + [|d'.out|];
    var c := text[n];
    match KindOf(c)
    case None =>
      AgreeExtends(kept, |d'.out|, d, e, d', e');
    case Some(k) =>
      assert AgreeSlot(kept, d.pending.Get(k), e.pending.Get(k));
      match e.pending.Get(k)
      case Some(se) =>
        AgreeClose(kept, d, e, k, d.pending.Get(k).value, se, c);
      case None =>
        if HasFlagSameLine(text, c, n + 1) {
          AgreeOpen(kept, d, e, k, c);
        } else {
          AgreeExtends(kept, |d'.out|, d, e, d', e');
        }
  }

  lemma {:induction false} AgreeInvariant(text: seq<char>, n: nat)
    requires n <= |text|
    ensures Agree(Kept(text, n), ScanTo(Display, text, n), ScanTo(Edit, text, n))
  {
    if n > 0 {
      AgreeInvariant(text, n - 1);
      AgreeStep(text, n - 1);
    }
  }

  // ---------------------------------------------------------------------------
  // Subsequence and marker-free inputs

  lemma SubsequenceExtend(a: seq<char>, b: seq<char>, c: char)
    requires IsSubsequence(a, b)
    ensures IsSubsequence(a, b + [c])
    ensures IsSubsequence(a + [c], b + [c])
  {
    assert (b + [c])[..|b|] == b;
    assert (a + [c])[..|a|] == a;
  }

  lemma {:induction false} DisplaySubsequenceTo(text: seq<char>, n: nat)
    requires n <= |text|
    ensures IsSubsequence(ScanTo(Display, text, n).out, text[..n])
  {
    if n > 0 {
      DisplaySubsequenceTo(text, n - 1);
      assert text[..n] == text[..n - 1] + [text[n - 1]];
      SubsequenceExtend(ScanTo(Display, text, n - 1).out, text[..n - 1], text[n - 1]);
    }
  }

  lemma {:induction false} MarkerFreeScanTo(mode: Mode, text: seq<char>, n: nat)
    requires n <= |text| && NoMarkers(text)
    ensures ScanTo(mode, text, n) == State(text[..n], [], NothingPending)
  {
    if n > 0 {
      MarkerFreeScanTo(mode, text, n - 1);
      assert KindOf(text[n - 1]).None?;
      assert text[..n] == text[..n - 1] + [text[n - 1]];
    }
  }

  // ---------------------------------------------------------------------------
  // Facts about a whole scan

  /** Every opened kind is closed by the end of the input: no pending start survives. */
  lemma NothingPendingAtEnd(mode: Mode, text: seq<char>)
    ensures ScanTo(mode, text, |text|).pending == NothingPending
  {
    var st := ScanTo(mode, text, |text|);
    if mode == Display {
      DisplayInvariant(text, |text|);
      assert forall k :: DisplaySlotOK(text, |text|, st, k);
      assert DisplaySlotOK(text, |text|, st, Bold);
      assert DisplaySlotOK(text, |text|, st, Strike);
      assert DisplaySlotOK(text, |text|, st, Italic);
    } else {
      EditInvariant(text, |text|);
      assert EditSlotOK(text, |text|, st, Bold);
      assert EditSlotOK(text, |text|, st, Strike);
      assert EditSlotOK(text, |text|, st, Italic);
    }
  }

  /** Display drops exactly the opening and the closing marker of every recorded flag. */
  lemma DisplayLengthAccounting(text: seq<char>)
    ensures |Scan(Display, text).text| + 2 * |Scan(Display, text).flags| == |text|
  {
    DisplayInvariant(text, |text|);
    NothingPendingAtEnd(Display, text);
  }

  /** Display output is the input with some characters deleted. */
  lemma DisplayIsSubsequence(text: seq<char>)
    ensures IsSubsequence(Scan(Display, text).text, text)
  {
    DisplaySubsequenceTo(text, |text|);
    assert text[..|text|] == text;
  }

  /** Display flags are (possibly empty) ranges inside the output, free of newlines and their own marker. */
  lemma DisplayFlagsInBounds(text: seq<char>)
    ensures var r := Scan(Display, text);
            forall q :: 0 <= q < |r.flags| ==> 0 <= r.flags[q].start <= r.flags[q].end <= |r.text|
    ensures var r := Scan(Display, text);
            forall q, t :: 0 <= q < |r.flags| && r.flags[q].start <= t < r.flags[q].end && 0 <= t < |r.text| ==>
              r.text[t] != Marker(r.flags[q].kind) && r.text[t] != NEW_LINE
  {
    DisplayInvariant(text, |text|);
    var r := Scan(Display, text);
    forall q | 0 <= q < |r.flags|
      ensures DisplayFlagOK(r.text, r.flags[q])
    {
    }
  }

  /** Edit mode hands back the input text unchanged. */
  lemma EditKeepsText(text: seq<char>)
    ensures Scan(Edit, text).text == text
  {
    EditInvariant(text, |text|);
    assert text[..|text|] == text;
  }

  /**
   Every edit flag lies strictly inside the text with its marker on both sides, so both
   grey one-character ranges are in bounds; the closing marker is the first newline or
   marker after the start, so the range holds neither.
   */
  lemma EditFlagsFramed(text: seq<char>)
    ensures var r := Scan(Edit, text);
            forall q :: 0 <= q < |r.flags| ==>
              && 1 <= r.flags[q].start < r.flags[q].end < |text|
              && text[r.flags[q].start - 1] == Marker(r.flags[q].kind)
              && text[r.flags[q].end] == Marker(r.flags[q].kind)
    ensures var r := Scan(Edit, text);
            forall q, t :: 0 <= q < |r.flags| && r.flags[q].start <= t < r.flags[q].end && 0 <= t < |text| ==>
              text[t] != Marker(r.flags[q].kind) && text[t] != NEW_LINE
  {
    EditInvariant(text, |text|);
    var r := Scan(Edit, text);
    forall q, t | 0 <= q < |r.flags| && r.flags[q].start <= t < r.flags[q].end && 0 <= t < |text|
      ensures text[t] != Marker(r.flags[q].kind) && text[t] != NEW_LINE
    {
      assert EditFlagOK(text, r.flags[q]);
      assert !IsStop(text, Marker(r.flags[q].kind), t);
    }
  }

  /** In both modes flags come in closing order and same-kind flags never overlap. */
  lemma FlagsInClosingOrder(mode: Mode, text: seq<char>)
    ensures var flags := Scan(mode, text).flags;
            forall a, b :: 0 <= a < b < |flags| ==>
              && flags[a].end <= flags[b].end
              && (flags[a].kind == flags[b].kind ==> flags[a].end <= flags[b].start)
  {
    if mode == Display {
      DisplayInvariant(text, |text|);
    } else {
      EditInvariant(text, |text|);
    }
  }

  /**
   Both modes recognise the same pairs: equally many flags, the same kinds in the same
   order, and each display index is the edit marker position translated into display output.
   */
  lemma ModesAgree(text: seq<char>)
    ensures |Scan(Display, text).flags| == |Scan(Edit, text).flags|
    ensures var d, e := Scan(Display, text).flags, Scan(Edit, text).flags;
            forall q :: 0 <= q < |d| && q < |e| ==>
              && d[q].kind == e[q].kind
              && 1 <= e[q].start <= e[q].end <= |text|
              && d[q].start == |ScanTo(Display, text, e[q].start - 1).out|
              && d[q].end == |ScanTo(Display, text, e[q].end).out|
  {
    var kept := Kept(text, |text|);
    AgreeInvariant(text, |text|);
    KeptIsHistory(text, |text|);
    var d, e := Scan(Display, text).flags, Scan(Edit, text).flags;
    forall q | 0 <= q < |d| && q < |e|
      ensures d[q].kind == e[q].kind && 1 <= e[q].start <= e[q].end <= |text|
      ensures d[q].start == |ScanTo(Display, text, e[q].start - 1).out|
      ensures d[q].end == |ScanTo(Display, text, e[q].end).out|
    {
      assert AgreeFlag(kept, d[q], e[q]);
    }
  }

  /** Input without marker characters comes back unchanged and unflagged, in either mode. */
  lemma MarkerFreeUnchanged(mode: Mode, text: seq<char>)
    requires NoMarkers(text)
    ensures Scan(mode, text) == ScanResult(text, [])
  {
    MarkerFreeScanTo(mode, text, |text|);
    assert text[..|text|] == text;
  }

  /** Re-scanning display output is a no-op when the input had no markers. */
  lemma MarkerFreeFixedPoint(text: seq<char>)
    requires NoMarkers(text)
    ensures Scan(Display, Scan(Display, text).text) == Scan(Display, text)
  {
    MarkerFreeUnchanged(Display, text);
  }

  /**
   A marker whose kind is not pending and whose lookahead fails is copied as a literal:
   it is appended, no slot changes and no flag is recorded.
   */
  lemma LiteralMarker(mode: Mode, text: seq<char>, n: nat, k: Kind)
    requires n < |text| && text[n] == Marker(k)
    requires ScanTo(mode, text, n).pending.Get(k).None?
    requires !HasFlagSameLine(text, Marker(k), n + 1)
    ensures var before, after := ScanTo(mode, text, n), ScanTo(mode, text, n + 1);
            after == State(before.out + [Marker(k)], before.flags, before.pending)
  {
  }

  /** A pending slot survives every character that is not its own kind's marker. */
  lemma {:induction false} SlotSurvives(mode: Mode, text: seq<char>, k: Kind, lo: nat, hi: nat)
    requires lo <= hi <= |text|
    requires forall u :: lo <= u < hi ==> text[u] != Marker(k)
    ensures ScanTo(mode, text, hi).pending.Get(k) == ScanTo(mode, text, lo).pending.Get(k)
    decreases hi - lo
  {
    if lo < hi {
      SlotSurvives(mode, text, k, lo, hi - 1);
      assert KindOf(text[hi - 1]) != Some(k);
    }
  }

  /** Flags are only ever appended, so a recorded flag stays recorded. */
  lemma {:induction false} FlagKept(mode: Mode, text: seq<char>, f: Flag, lo: nat, hi: nat)
    requires lo <= hi <= |text|
    requires f in ScanTo(mode, text, lo).flags
    ensures f in ScanTo(mode, text, hi).flags
    decreases hi - lo
  {
    if lo < hi {
      FlagKept(mode, text, f, lo, hi - 1);
      var before, after := ScanTo(mode, text, hi - 1), ScanTo(mode, text, hi);
      var q :| 0 <= q < |before.flags| && before.flags[q] == f;
      assert after.flags[..|before.flags|] == before.flags;
      assert after.flags[q] == f;
    }
  }

  /**
   A marker whose kind is not pending and whose lookahead succeeds opens a range, and
   the pair is recorded: the flag starts just after the marker (Edit) or at the current
   output length (Display), and ends at the output length reached at the closing marker.
   */
  lemma PairRecognised(mode: Mode, text: seq<char>, n: nat, k: Kind)
    requires n < |text| && text[n] == Marker(k)
    requires ScanTo(mode, text, n).pending.Get(k).None?
    requires HasFlagSameLine(text, Marker(k), n + 1)
    ensures Flag(k, if mode == Edit then n + 1 else |ScanTo(mode, text, n).out|,
                 |ScanTo(mode, text, FirstStop(text, Marker(k), n + 1)).out|)
            in Scan(mode, text).flags
  {
    var c := Marker(k);
    var m := FirstStop(text, c, n + 1);
    var v := if mode == Edit then n + 1 else |ScanTo(mode, text, n).out|;
    assert ScanTo(mode, text, n + 1).pending.Get(k) == Some(v);
    forall u | n + 1 <= u < m
      ensures text[u] != c
    {
      assert !IsStop(text, c, u);
    }
    SlotSurvives(mode, text, k, n + 1, m);
    var closed := Flag(k, v, |ScanTo(mode, text, m).out|);
    assert ScanTo(mode, text, m + 1) == Step(mode, text, ScanTo(mode, text, m), m);
    assert ScanTo(mode, text, m + 1).flags == ScanTo(mode, text, m).flags + [closed];
    FlagKept(mode, text, closed, m + 1, |text|);
  }

  /** Every annotation is a well-formed range of `text`, so the span builder accepts it. */
  predicate InBounds(text: seq<char>, spans: seq<Annotation>)
  {
    forall a :: a in spans ==> 0 <= a.start <= a.end <= |text|
  }

  /** An edit-mode annotation as the span builder needs it: in bounds and on marker glyphs. */
  predicate Framed(text: seq<char>, a: Annotation)
  {
    && 0 <= a.start <= a.end <= |text|
    && (a.Grey? ==> a.end == a.start + 1 && a.start < |text| && KindOf(text[a.start]).Some?)
    && (a.Style? ==> 1 <= a.start < a.end < |text| &&
                     text[a.start - 1] == Marker(a.kind) && text[a.end] == Marker(a.kind))
  }

  lemma {:induction false} AnnotationsFramed(text: seq<char>, flags: seq<Flag>)
    requires forall q :: 0 <= q < |flags| ==>
               && 1 <= flags[q].start < flags[q].end < |text|
               && text[flags[q].start - 1] == Marker(flags[q].kind)
               && text[flags[q].end] == Marker(flags[q].kind)
    ensures forall a :: a in Annotate(Edit, flags) ==> Framed(text, a)
    decreases |flags|
  {
    if flags != [] {
      var init, f := flags[..|flags| - 1], flags[|flags| - 1];
      AnnotationsFramed(text, init);
      assert Annotate(Edit, flags) == Annotate(Edit, init) + FlagAnnotations(Edit, f);
      assert Framed(text, Style(f.kind, f.start, f.end));
      assert Framed(text, Grey(f.start - 1, f.start));
      assert Framed(text, Grey(f.end, f.end + 1));
    }
  }

  /**
   The edit-mode annotations are in bounds; every grey range covers exactly one marker
   glyph, and every style range is framed by its own marker on both sides.
   */
  lemma EditAnnotationsFramed(text: seq<char>)
    ensures var spans := Annotate(Edit, Scan(Edit, text).flags);
            && InBounds(text, spans)
            && (forall a :: a in spans && a.Grey? ==> a.end == a.start + 1 && KindOf(text[a.start]).Some?)
            && (forall a :: a in spans && a.Style? ==>
                  1 <= a.start < a.end < |text| &&
                  text[a.start - 1] == Marker(a.kind) && text[a.end] == Marker(a.kind))
  {
    EditFlagsFramed(text);
    var spans := Annotate(Edit, Scan(Edit, text).flags);
    AnnotationsFramed(text, Scan(Edit, text).flags);
    assert forall a :: a in spans ==> Framed(text, a);
  }
}
