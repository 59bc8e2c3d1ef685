/** The values of the backtrace support: captured call stacks identified by
    a hash, the per-call-site metric, the ledger record, report entries and
    the frame filter of short-mode rendering. */
module Backtraces {
  import opened Wrappers
  import opened Strings
  import opened TrackConfig
  import opened UnsignedMath

  /** A symbol the unwinder resolved for a frame, with its demangled name
      when one is known. */
  datatype Symbol = Symbol(name: Option<string>)

  /** One stack frame: its instruction pointer and the symbols it resolves to
      (an inlined call gives several; an unresolvable frame gives none). */
  datatype Frame = Frame(ip: nat, symbols: seq<Symbol>)

  datatype Backtrace = Backtrace(frames: seq<Frame>)

  /** A captured stack and the 64-bit hash that identifies it. */
  datatype HashedBacktrace = HashedBacktrace(inner: Option<Backtrace>, hash: nat)

  /** The hash of a sequence of instruction pointers (the standard library's
      DefaultHasher, which the model does not interpret). */
  type Hasher = seq<nat> -> nat

  function Ips(bt: Backtrace): (ips: seq<nat>)
    ensures |ips| == |bt.frames|
    ensures forall k :: 0 <= k < |ips| ==> ips[k] == bt.frames[k].ip
  {
    seq(|bt.frames|, k requires 0 <= k < |bt.frames| => bt.frames[k].ip)
  }

  /** `HashedBacktrace::capture`: with capture disabled, no stack and the
      sentinel hash 0; otherwise the given current stack and the hash of its
      instruction pointers. */
  function Capture(mode: BacktraceMode, stack: Backtrace, hasher: Hasher): (t: HashedBacktrace)
    ensures mode.None? <==> t.inner.None?
    ensures mode.None? ==> t.hash == 0
    ensures !mode.None? ==> t.inner == Some(stack) && t.hash == hasher(Ips(stack))
  {
    if mode.None? then HashedBacktrace(Option.None, 0)
    else HashedBacktrace(Some(stack), hasher(Ips(stack)))
  }

  /** `PartialEq for HashedBacktrace`: two captures are the same call site
      when their hashes agree. */
  predicate SameSite(a: HashedBacktrace, b: HashedBacktrace) {
    a.hash == b.hash
  }

  /** Equality by hash is an equivalence relation, so it can key a map. */
  lemma SameSiteIsEquivalence(a: HashedBacktrace, b: HashedBacktrace, c: HashedBacktrace)
    ensures SameSite(a, a)
    ensures SameSite(a, b) ==> SameSite(b, a)
    ensures SameSite(a, b) && SameSite(b, c) ==> SameSite(a, c)
  {
  }

  /** The frames play no part: captures that differ only in their stacks
      (a hash collision) are equal, and captures with different hashes are
      not, whatever their stacks. */
  lemma SameSiteIgnoresFrames(a: HashedBacktrace, stack: Option<Backtrace>)
    ensures SameSite(a, a.(inner := stack))
    ensures forall h: nat :: h != a.hash ==> !SameSite(a, a.(hash := h))
  {
  }

  /** Deduplication: two captures of stacks with the same instruction
      pointers are the same site, in every mode; with capture disabled every
      pair of captures is. */
  lemma CaptureDeduplicates(mode: BacktraceMode, s1: Backtrace, s2: Backtrace, hasher: Hasher)
    requires mode.None? || Ips(s1) == Ips(s2)
    ensures SameSite(Capture(mode, s1, hasher), Capture(mode, s2, hasher))
  {
  }

  /** Allocation figures of one call site, as handed to report consumers. */
  datatype BacktraceMetric = BacktraceMetric(allocatedBytes: nat, freedBytes: nat, allocations: nat, mode: BacktraceMode)

  /** `BacktraceMetric::in_use`: bytes allocated and not freed, saturating
      at 0 when more was freed than allocated. */
  function InUse(m: BacktraceMetric): (r: nat)
    ensures r <= m.allocatedBytes
    ensures m.freedBytes <= m.allocatedBytes ==> r == m.allocatedBytes - m.freedBytes
    ensures m.allocatedBytes < m.freedBytes ==> r == 0
  {
    SaturatingSub(m.allocatedBytes, m.freedBytes)
  }

  /** A ledger record: the first captured stack for a hash and the totals
      of every allocation attributed to it. */
  datatype TraceInfo = TraceInfo(backtrace: HashedBacktrace, allocatedBytes: nat, freedBytes: nat, allocations: nat, mode: BacktraceMode)

  function MetricOf(info: TraceInfo): (m: BacktraceMetric)
    ensures m.allocatedBytes == info.allocatedBytes && m.freedBytes == info.freedBytes
    ensures m.allocations == info.allocations && m.mode == info.mode
  {
    BacktraceMetric(info.allocatedBytes, info.freedBytes, info.allocations, info.mode)
  }

  /** One entry of a `BacktraceReport`. */
  datatype ReportEntry = ReportEntry(backtrace: HashedBacktrace, metric: BacktraceMetric)

  /** What the text and CSV renderings need of an entry: a captured stack and
      a mode other than None (None is `unreachable!()` there). */
  predicate Printable(e: ReportEntry) {
    !e.metric.mode.None? && e.backtrace.inner.Some?
  }

  // ---------------------------------------------------------------------
  // Short-mode frame filter

  /** `name.strip_prefix('<').unwrap_or(name)`: at most one '<' removed. */
  function StripAngle(name: string): string {
    if |name| > 0 && name[0] == '<' then name[1..] else name
  }

  /** Names of the wrapper itself, of the allocator runtime and of the
      startup and panic machinery, hidden in short mode. */
  predicate IsHiddenName(name: string) {
    var n := StripAngle(name);
    || StartsWith(n, "alloc_track::")
    || n == "__rg_alloc"
    || StartsWith(n, "alloc::")
    || StartsWith(n, "std::panicking::")
    || n == "__rust_try"
    || n == "_start"
    || n == "__libc_start_main_impl"
    || n == "__libc_start_call_main"
    || StartsWith(n, "std::rt::")
  }

  const HiddenPrefixes: seq<string> := ["alloc_track::", "alloc::", "std::panicking::", "std::rt::"]
  const HiddenNames: seq<string> := ["__rg_alloc", "__rust_try", "_start", "__libc_start_main_impl", "__libc_start_call_main"]

  /** The filter as a table: a name is hidden exactly when, after removing
      one leading '<' if there is one, it starts with one of the four
      prefixes or equals one of the five names. */
  lemma IsHiddenNameByTable(name: string)
    ensures IsHiddenName(name) <==>
      (exists k :: 0 <= k < |HiddenPrefixes| && StartsWith(StripAngle(name), HiddenPrefixes[k]))
      || StripAngle(name) in HiddenNames
  {
    var n := StripAngle(name);
    if StartsWith(n, "alloc_track::") { assert StartsWith(n, HiddenPrefixes[0]); }
    if StartsWith(n, "alloc::") { assert StartsWith(n, HiddenPrefixes[1]); }
    if StartsWith(n, "std::panicking::") { assert StartsWith(n, HiddenPrefixes[2]); }
    if StartsWith(n, "std::rt::") { assert StartsWith(n, HiddenPrefixes[3]); }
  }

  /** One leading '<' (a trait-impl symbol such as `<alloc::vec::Vec<T> as
      Drop>::drop`) does not change the verdict... */
  lemma OneAngleIgnored(name: string)
    requires |name| == 0 || name[0] != '<'
    ensures IsHiddenName("<" + name) == IsHiddenName(name)
  {
    assert ("<" + name)[1..] == name;
  }

  /** ...but only one is removed: a name that still starts with '<' after
      stripping matches nothing. */
  lemma TwoAnglesNeverHidden(name: string)
    ensures !IsHiddenName("<<" + name)
  {
    var n := StripAngle("<<" + name);
    assert n == ("<<" + name)[1..];
    assert |n| > 0 && n[0] == '<';
  }

  /** A trait-impl frame of the allocator runtime is hidden. */
  lemma HiddenImplFrame()
    ensures IsHiddenName("<alloc::vec::Vec<u8> as Drop>::drop")
  {
    var n := "<alloc::vec::Vec<u8> as Drop>::drop";
    assert StripAngle(n) == n[1..];
    assert StartsWith(n[1..], "alloc::");
  }

  /** The wrapper's own frames and the allocator shim are hidden. */
  lemma HiddenOwnFrames()
    ensures IsHiddenName("alloc_track::enter_alloc")
    ensures IsHiddenName("__rg_alloc")
  {
    assert StartsWith("alloc_track::enter_alloc", "alloc_track::");
  }

  /** Exact names are matched exactly and prefixes up to their "::". */
  lemma ShownNearMisses()
    ensures !IsHiddenName("__rg_alloc_zeroed")
    ensures !IsHiddenName("alloc_tracker::new")
    ensures !IsHiddenName("app::main")
  {
    var t := "alloc_tracker::new";
    assert t[11] == 'e' && "alloc_track::"[11] == ':';
    assert t[5] == '_' && "alloc::"[5] == ':';
    assert t[0] != 's';
    var z := "__rg_alloc_zeroed";
    assert z[0] == '_' && "alloc_track::"[0] == 'a' && "alloc::"[0] == 'a';
    assert "std::panicking::"[0] == 's' && "std::rt::"[0] == 's';
    assert |z| != |"__rg_alloc"| && |z| != |"__rust_try"| && |z| != |"_start"|;
    assert |z| != |"__libc_start_main_impl"| && |z| != |"__libc_start_call_main"|;
    var m := "app::main";
    assert m[0] == 'a' && m[1] == 'p';
    assert |m| != |"__rg_alloc"| && |m| != |"__rust_try"| && |m| != |"_start"|;
  }

  /** A symbol short mode prints: one without a name, or one whose name is
      not hidden. */
  predicate IsShown(s: Symbol) {
    s.name.None? || !IsHiddenName(s.name.value)
  }

  /** Which symbols a rendering prints. The lines below are stated for any
      filter; short mode uses `IsShown`. */
  type SymbolFilter = Symbol -> bool

  /** What short mode prints for a frame: each shown symbol, or the raw
      instruction pointer of a frame that has no symbols. */
  datatype ShortLine = SymbolLine(ip: nat, symbol: Symbol) | RawLine(ip: nat)

  function KeptSymbols(shown: SymbolFilter, ip: nat, symbols: seq<Symbol>): seq<ShortLine> {
    if |symbols| == 0 then []
    else
      var last := symbols[|symbols| - 1];
      KeptSymbols(shown, ip, symbols[..|symbols| - 1]) + (if shown(last) then [SymbolLine(ip, last)] else [])
  }

  function FrameLines(shown: SymbolFilter, f: Frame): seq<ShortLine> {
    KeptSymbols(shown, f.ip, f.symbols) + if |f.symbols| == 0 then [RawLine(f.ip)] else []
  }

  /** The lines of `display_short`, frame by frame in stack order. */
  function ShortLines(shown: SymbolFilter, frames: seq<Frame>): seq<ShortLine> {
    if |frames| == 0 then []
    else ShortLines(shown, frames[..|frames| - 1]) + FrameLines(shown, frames[|frames| - 1])
  }

  /** Line `line` is symbol m of `symbols`, and that symbol is shown. */
  predicate KeptAt(shown: SymbolFilter, ip: nat, symbols: seq<Symbol>, m: int, line: ShortLine) {
    0 <= m < |symbols| && shown(symbols[m]) && line == SymbolLine(ip, symbols[m])
  }

  lemma {:induction false} KeptSymbolsMembership(shown: SymbolFilter, ip: nat, symbols: seq<Symbol>, line: ShortLine)
    ensures line in KeptSymbols(shown, ip, symbols) <==> exists m :: KeptAt(shown, ip, symbols, m, line)
  {
    if |symbols| > 0 {
      var n := |symbols| - 1;
      var init := symbols[..n];
      var tail := if shown(symbols[n]) then [SymbolLine(ip, symbols[n])] else [];
      assert KeptSymbols(shown, ip, symbols) == KeptSymbols(shown, ip, init) + tail;
      KeptSymbolsMembership(shown, ip, init, line);
      if line in KeptSymbols(shown, ip, init) {
        var m :| KeptAt(shown, ip, init, m, line);
        assert KeptAt(shown, ip, symbols, m, line);
      }
      if line in tail {
        assert KeptAt(shown, ip, symbols, n, line);
      }
      if exists m :: KeptAt(shown, ip, symbols, m, line) {
        var m :| KeptAt(shown, ip, symbols, m, line);
        if m < n { assert KeptAt(shown, ip, init, m, line); } else { assert line in tail; }
      }
    }
  }

  /** Line `line` is symbol m of frame k, and that symbol is shown. */
  predicate ShownSymbolAt(shown: SymbolFilter, frames: seq<Frame>, k: int, m: int, line: ShortLine) {
    0 <= k < |frames| && KeptAt(shown, frames[k].ip, frames[k].symbols, m, line)
  }

  /** Line `line` is the raw address of frame k, which has no symbols. */
  predicate RawFrameAt(frames: seq<Frame>, k: int, line: ShortLine) {
    0 <= k < |frames| && |frames[k].symbols| == 0 && line == RawLine(frames[k].ip)
  }

  ghost predicate Printed(shown: SymbolFilter, frames: seq<Frame>, line: ShortLine) {
    (exists k, m :: ShownSymbolAt(shown, frames, k, m, line)) || (exists k :: RawFrameAt(frames, k, line))
  }

  lemma PrintedExtend(shown: SymbolFilter, frames: seq<Frame>, line: ShortLine)
    requires |frames| > 0
    ensures Printed(shown, frames, line) <==>
      Printed(shown, frames[..|frames| - 1], line) || line in FrameLines(shown, frames[|frames| - 1])
  {
    var n := |frames| - 1;
    var init := frames[..n];
    var f := frames[n];
    KeptSymbolsMembership(shown, f.ip, f.symbols, line);
    if Printed(shown, frames, line) {
      if k, m :| ShownSymbolAt(shown, frames, k, m, line) {
        if k < n { assert ShownSymbolAt(shown, init, k, m, line); }
      } else {
        var k :| RawFrameAt(frames, k, line);
        if k < n { assert RawFrameAt(init, k, line); }
      }
    }
    if Printed(shown, init, line) {
      if k, m :| ShownSymbolAt(shown, init, k, m, line) {
        assert ShownSymbolAt(shown, frames, k, m, line);
      } else {
        var k :| RawFrameAt(init, k, line);
        assert RawFrameAt(frames, k, line);
      }
    }
    if line in FrameLines(shown, f) {
      if line in KeptSymbols(shown, f.ip, f.symbols) {
        var m :| KeptAt(shown, f.ip, f.symbols, m, line);
        assert ShownSymbolAt(shown, frames, n, m, line);
      } else {
        assert RawFrameAt(frames, n, line);
      }
    }
  }

  /** Everything short mode prints, and only that: the symbols of every
      frame that the filter keeps, and the raw address of every frame
      without symbols. A hidden symbol is never printed. */
  lemma {:induction false} ShortLinesMembership(shown: SymbolFilter, frames: seq<Frame>, line: ShortLine)
    ensures line in ShortLines(shown, frames) <==> Printed(shown, frames, line)
  {
    if |frames| > 0 {
      ShortLinesMembership(shown, frames[..|frames| - 1], line);
      PrintedExtend(shown, frames, line);
    }
  }

  /** `display_short`'s loop over frames and symbols: a symbol whose name is
      hidden is skipped, every other symbol is printed, and a frame without
      symbols is printed raw. The formatter itself is not modelled; the
      result is the sequence of lines handed to it. */
  method DisplayShort(bt: HashedBacktrace) returns (lines: seq<ShortLine>)
    requires bt.inner.Some?
    ensures lines == ShortLines(IsShown, bt.inner.value.frames)
  {
    var frames := bt.inner.value.frames;
    lines := [];
    var k := 0;
    while k < |frames|
      invariant 0 <= k <= |frames|
      invariant lines == ShortLines(IsShown, frames[..k])
    {
      var frameLines := DisplayFrame(frames[k]);
      ShortLinesStep(IsShown, frames, k);
      lines := lines + frameLines;
      k := k + 1;
    }
    assert frames[..k] == frames;
  }

  /** The body of the loop over frames: the shown symbols of one frame, or
      its raw address when it has no symbols. */
  method DisplayFrame(frame: Frame) returns (lines: seq<ShortLine>)
    ensures lines == FrameLines(IsShown, frame)
  {
    lines := [];
    var m := 0;
    while m < |frame.symbols|
      invariant 0 <= m <= |frame.symbols|
      invariant lines == KeptSymbols(IsShown, frame.ip, frame.symbols[..m])
    {
      var symbol := frame.symbols[m];
      KeptSymbolsStep(IsShown, frame.ip, frame.symbols, m);
      m := m + 1;
      if !IsShown(symbol) {
        continue;
      }
      lines := lines + [SymbolLine(frame.ip, symbol)];
    }
    assert frame.symbols[..m] == frame.symbols;
    if |frame.symbols| == 0 {
      lines := lines + [RawLine(frame.ip)];
    }
  }

  lemma KeptSymbolsStep(shown: SymbolFilter, ip: nat, symbols: seq<Symbol>, m: nat)
    requires m < |symbols|
    ensures KeptSymbols(shown, ip, symbols[..m + 1])
         == KeptSymbols(shown, ip, symbols[..m]) + (if shown(symbols[m]) then [SymbolLine(ip, symbols[m])] else [])
  {
    assert symbols[..m + 1][..m] == symbols[..m];
  }

  lemma ShortLinesStep(shown: SymbolFilter, frames: seq<Frame>, k: nat)
    requires k < |frames|
    ensures ShortLines(shown, frames[..k + 1]) == ShortLines(shown, frames[..k]) + FrameLines(shown, frames[k])
    ensures KeptSymbols(shown, frames[k].ip, frames[k].symbols[..|frames[k].symbols|]) == KeptSymbols(shown, frames[k].ip, frames[k].symbols)
  {
    assert frames[..k + 1][..k] == frames[..k];
    assert frames[k].symbols[..|frames[k].symbols|] == frames[k].symbols;
  }
}
