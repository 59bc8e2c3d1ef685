/** The ordering step of `backtrace_report`: entries sorted ascending by
    bytes in use (`out.sort_by_key(..)`, a stable sort). */
module ReportOrder {
  import opened Backtraces

  /** The sort key: `allocated.saturating_sub(freed)`. */
  function Key(e: ReportEntry): nat {
    InUse(e.metric)
  }

  predicate SortedByInUse(s: seq<ReportEntry>) {
    forall i, j :: 0 <= i < j < |s| ==> Key(s[i]) <= Key(s[j])
  }

  predicate AtLeast(s: seq<ReportEntry>, b: nat) {
    forall k :: 0 <= k < |s| ==> b <= Key(s[k])
  }

  lemma AtLeastPermutation(s: seq<ReportEntry>, t: seq<ReportEntry>, b: nat)
    requires AtLeast(s, b)
    requires multiset(t) <= multiset(s)
    ensures AtLeast(t, b)
  {
    forall k | 0 <= k < |t|
      ensures b <= Key(t[k])
    {
      assert t[k] in multiset(s);
      var j :| 0 <= j < |s| && s[j] == t[k];
    }
  }

  /** Inserts `e` after every entry whose key is not larger, so that equal
      keys keep their order. */
  function Insert(e: ReportEntry, s: seq<ReportEntry>): (r: seq<ReportEntry>)
    requires SortedByInUse(s)
    ensures SortedByInUse(r)
    ensures multiset(r) == multiset(s) + multiset{e}
    decreases |s|
  {
    if |s| == 0 then [e]
    else if Key(s[0]) <= Key(e) then
      var rest := Insert(e, s[1..]);
      InsertAfterHead(e, s, rest);
      [s[0]] + rest
    else
      InsertBeforeHead(e, s);
      [e] + s
  }

  /** The head of `s` stays in front of the insertion into its tail. */
  lemma InsertAfterHead(e: ReportEntry, s: seq<ReportEntry>, rest: seq<ReportEntry>)
    requires |s| > 0 && SortedByInUse(s) && Key(s[0]) <= Key(e)
    requires SortedByInUse(rest) && multiset(rest) == multiset(s[1..]) + multiset{e}
    ensures SortedByInUse([s[0]] + rest)
    ensures multiset([s[0]] + rest) == multiset(s) + multiset{e}
  {
    assert s == [s[0]] + s[1..];
    assert AtLeast(s[1..] + [e], Key(s[0]));
    assert multiset(s[1..] + [e]) == multiset(s[1..]) + multiset{e};
    AtLeastPermutation(s[1..] + [e], rest, Key(s[0]));
  }

  /** An entry with a smaller key than the head goes first. */
  lemma InsertBeforeHead(e: ReportEntry, s: seq<ReportEntry>)
    requires |s| > 0 && SortedByInUse(s) && Key(e) < Key(s[0])
    ensures SortedByInUse([e] + s)
    ensures multiset([e] + s) == multiset(s) + multiset{e}
  {
  }

  /** `sort_by_key` on the in-use bytes: the result is ordered and is a
      permutation of the input. */
  function SortByInUse(s: seq<ReportEntry>): (r: seq<ReportEntry>)
    ensures SortedByInUse(r)
    ensures multiset(r) == multiset(s)
    decreases |s|
  {
    if |s| == 0 then []
    else
      var init := s[..|s| - 1];
      assert s == init + [s[|s| - 1]];
      Insert(s[|s| - 1], SortByInUse(init))
  }
}
