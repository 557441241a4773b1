/**
 The markup scanner as a pure left-to-right fold. One `Step` consumes one input
 character; `ScanTo(mode, text, n)` is the scanner state after the first `n`
 characters. The output index `j` of the loops in `extractFlagsForTextView` and
 `extractFlagsForEditText` is the length of `out`, because `j` advances exactly when a
 character is appended.
 */
module ScanSpec {
  import opened Wrappers
  import opened WhatsappUtil

  /** Display drops the markers of recognised pairs; Edit keeps every character. */
  datatype Mode = Display | Edit

  /** One pending start per kind, as an output index; `None` stands for the unset sentinel. */
  datatype Pending = Pending(bold: Option<nat>, strike: Option<nat>, italic: Option<nat>)
  {
    function Get(k: Kind): Option<nat>
    {
      match k
      case Bold => bold
      case Strike => strike
      case Italic => italic
    }

    function Set(k: Kind, v: Option<nat>): (p: Pending)
      ensures p.Get(k) == v
      ensures forall k' :: k' != k ==> p.Get(k') == Get(k')
    {
      match k
      case Bold => this.(bold := v)
      case Strike => this.(strike := v)
      case Italic => this.(italic := v)
    }
  }

  const NothingPending: Pending := Pending(None, None, None)

  /** The characters emitted so far, the flags recorded so far (in closing order), the slots. */
  datatype State = State(out: seq<char>, flags: seq<Flag>, pending: Pending)

  datatype ScanResult = ScanResult(text: seq<char>, flags: seq<Flag>)

  /** Consumes `text[i]`. The lookahead reads the whole input text, starting at `i + 1`. */
  function Step(mode: Mode, text: seq<char>, st: State, i: nat): (r: State)
    requires i < |text|
    ensures r.out == st.out || r.out == st.out + [text[i]]
    ensures mode == Edit ==> r.out == st.out + [text[i]]
    ensures KindOf(text[i]).None? ==> r == st.(out := st.out + [text[i]])
    ensures r.flags == st.flags || (|r.flags| == |st.flags| + 1 && r.flags[..|st.flags|] == st.flags)
  {
    var c := text[i];
    match KindOf(c)
    case None => st.(out := st.out + [c])
    case Some(k) =>
      match st.pending.Get(k)
      case Some(s) =>
        // closing marker: the range ends at the current output index
        var out := if mode == Edit then st.out + [c] else st.out;
        State(out, st.flags + [Flag(k, s, |st.out|)], st.pending.Set(k, None))
      case None =>
        if HasFlagSameLine(text, c, i + 1) then
          // opening marker: Edit keeps it and starts after it, Display drops it
          if mode == Edit then
            State(st.out + [c], st.flags, st.pending.Set(k, Some(|st.out| + 1)))
          else
            st.(pending := st.pending.Set(k, Some(|st.out|)))
        else
          st.(out := st.out + [c])
  }

  function ScanTo(mode: Mode, text: seq<char>, n: nat): (r: State)
    requires n <= |text|
    ensures |r.out| <= n
    ensures mode == Edit ==> |r.out| == n
    decreases n
  {
    if n == 0 then State([], [], NothingPending)
    else Step(mode, text, ScanTo(mode, text, n - 1), n - 1)
  }

  /** The whole scan: the output characters and the recorded flags. */
  function Scan(mode: Mode, text: seq<char>): (r: ScanResult)
    ensures |r.text| <= |text|
  {
    var st := ScanTo(mode, text, |text|);
    ScanResult(st.out, st.flags)
  }

  /**
   What the span builder receives: a style over a half-open output range, or, in
   Edit mode, a grey foreground over one retained marker glyph.
   */
  datatype Annotation = Style(kind: Kind, start: int, end: int) | Grey(start: int, end: int)

  /** The annotations one flag contributes, in the order they are set. */
  function FlagAnnotations(mode: Mode, f: Flag): seq<Annotation>
  {
    var style := Style(f.kind, f.start, f.end);
    if mode == Display then [style]
    else [style, Grey(f.start - 1, f.start), Grey(f.end, f.end + 1)]
  }

  /** Span application: every flag in order, each contributing its annotations. */
  function Annotate(mode: Mode, flags: seq<Flag>): (r: seq<Annotation>)
    ensures mode == Display ==>
              |r| == |flags| &&
              forall q :: 0 <= q < |flags| ==> r[q] == Style(flags[q].kind, flags[q].start, flags[q].end)
    ensures mode == Edit ==>
              |r| == 3 * |flags| &&
              forall q :: 0 <= q < |flags| ==>
                && r[3 * q] == Style(flags[q].kind, flags[q].start, flags[q].end)
                && r[3 * q + 1] == Grey(flags[q].start - 1, flags[q].start)
                && r[3 * q + 2] == Grey(flags[q].end, flags[q].end + 1)
    decreases |flags|
  {
    if flags == [] then []
    else Annotate(mode, flags[..|flags| - 1]) + FlagAnnotations(mode, flags[|flags| - 1])
  }

  /** The text handed back to the widget and the annotations set on it. */
  datatype Formatted = Formatted(text: seq<char>, spans: seq<Annotation>)
}
