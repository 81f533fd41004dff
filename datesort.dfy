/** `list.sort(key=..., reverse=True)` as report.py uses it: Python first
    computes every key, then sorts the keys and carries the values along.
    The sort is stable even with `reverse=True`: entries with equal keys keep
    the order they had. */
module DateSort {
  import opened Wrappers
  import opened PyDate

  /** A line of the merged list together with its sort key. */
  datatype Entry = Entry(key: Date, line: string)

  /** Keys never increase from left to right. */
  predicate SortedDesc(s: seq<Entry>) {
    forall i, j | 0 <= i < j < |s| :: !Less(s[i].key, s[j].key)
  }

  /** The lines of the entries, the keys dropped again. */
  function Lines(s: seq<Entry>): seq<string> {
    seq(|s|, i requires 0 <= i < |s| => s[i].line)
  }

  /** The entries whose key is `k`, in their order. */
  function FilterKey(s: seq<Entry>, k: Date): seq<Entry> {
    if s == [] then []
    else FilterKey(s[..|s| - 1], k) + (if s[|s| - 1].key == k then [s[|s| - 1]] else [])
  }

  /** Puts `x` into the descending sequence `p` after every entry whose key is
      not below `x`'s, scanning from the right. */
  function InsertDesc(x: Entry, p: seq<Entry>): seq<Entry> {
    if p == [] || !Less(p[|p| - 1].key, x.key) then p + [x]
    else InsertDesc(x, p[..|p| - 1]) + [p[|p| - 1]]
  }

  /** The stable descending sort, one insertion at a time. */
  function SortDesc(s: seq<Entry>): seq<Entry> {
    if s == [] then [] else InsertDesc(s[|s| - 1], SortDesc(s[..|s| - 1]))
  }

  lemma {:induction false} FilterKeyAppend(a: seq<Entry>, b: seq<Entry>, k: Date)
    ensures FilterKey(a + b, k) == FilterKey(a, k) + FilterKey(b, k)
    decreases |b|
  {
    if b == [] {
      assert a + b == a;
    } else {
      assert (a + b)[..|a + b| - 1] == a + b[..|b| - 1];
      FilterKeyAppend(a, b[..|b| - 1], k);
    }
  }

  lemma LinesSnoc(init: seq<Entry>, x: Entry)
    ensures Lines(init + [x]) == Lines(init) + [x.line]
  {
  }

  lemma {:induction false} InsertDescMultiset(x: Entry, p: seq<Entry>)
    ensures |InsertDesc(x, p)| == |p| + 1
    ensures multiset(InsertDesc(x, p)) == multiset(p) + multiset{x}
  {
    if p != [] && Less(p[|p| - 1].key, x.key) {
      var init := p[..|p| - 1];
      InsertDescMultiset(x, init);
      assert p == init + [p[|p| - 1]];
    }
  }

  lemma {:induction false} InsertDescLines(x: Entry, p: seq<Entry>)
    ensures multiset(Lines(InsertDesc(x, p))) == multiset(Lines(p)) + multiset{x.line}
  {
    if p != [] && Less(p[|p| - 1].key, x.key) {
      var init, last := p[..|p| - 1], p[|p| - 1];
      InsertDescLines(x, init);
      assert p == init + [last];
      LinesSnoc(init, last);
      LinesSnoc(InsertDesc(x, init), last);
    } else {
      LinesSnoc(p, x);
    }
  }

  lemma {:induction false} InsertDescSorted(x: Entry, p: seq<Entry>)
    requires SortedDesc(p)
    ensures SortedDesc(InsertDesc(x, p))
  {
    if p != [] && Less(p[|p| - 1].key, x.key) {
      var init := p[..|p| - 1];
      var last := p[|p| - 1];
      InsertDescSorted(x, init);
      InsertDescMultiset(x, init);
      var q := InsertDesc(x, init);
      forall i | 0 <= i < |q| ensures !Less(q[i].key, last.key) {
        assert q[i] in multiset(q);
        assert q[i] in multiset(init) || q[i] == x;
      }
    }
  }

  /** Inserting `x` adds it at the end of the entries with its own key and
      leaves every other key's entries as they were. */
  lemma {:induction false} InsertDescFilter(x: Entry, p: seq<Entry>, k: Date)
    ensures FilterKey(InsertDesc(x, p), k) == FilterKey(p, k) + (if x.key == k then [x] else [])
  {
    if p != [] && Less(p[|p| - 1].key, x.key) {
      var init := p[..|p| - 1];
      var last := p[|p| - 1];
      InsertDescFilter(x, init, k);
      FilterKeyAppend(InsertDesc(x, init), [last], k);
      assert p == init + [last];
      FilterKeyAppend(init, [last], k);
    } else {
      FilterKeyAppend(p, [x], k);
    }
  }

  /** The sort neither drops nor duplicates an entry: the result is a
      permutation of the input. */
  lemma {:induction false} SortDescPermutation(s: seq<Entry>)
    ensures |SortDesc(s)| == |s|
    ensures multiset(SortDesc(s)) == multiset(s)
  {
    if s != [] {
      var init, x := s[..|s| - 1], s[|s| - 1];
      SortDescPermutation(init);
      var sorted := SortDesc(init);
      InsertDescMultiset(x, sorted);
      assert SortDesc(s) == InsertDesc(x, sorted);
      MultisetSnoc(s);
    }
  }

  lemma MultisetSnoc(s: seq<Entry>)
    requires s != []
    ensures multiset(s) == multiset(s[..|s| - 1]) + multiset{s[|s| - 1]}
  {
    assert s == s[..|s| - 1] + [s[|s| - 1]];
  }

  /** Nor does it drop or duplicate a line: the sorted lines are a
      permutation of the input lines. */
  lemma {:induction false} SortDescLinesPermutation(s: seq<Entry>)
    ensures multiset(Lines(SortDesc(s))) == multiset(Lines(s))
  {
    if s != [] {
      var init, x := s[..|s| - 1], s[|s| - 1];
      SortDescLinesPermutation(init);
      InsertDescLines(x, SortDesc(init));
      assert s == init + [x];
      LinesSnoc(init, x);
    }
  }

  /** The sorted result is newest first. */
  lemma {:induction false} SortDescSorted(s: seq<Entry>)
    ensures SortedDesc(SortDesc(s))
  {
    if s != [] {
      SortDescSorted(s[..|s| - 1]);
      InsertDescSorted(s[|s| - 1], SortDesc(s[..|s| - 1]));
    }
  }

  /** The sort is stable: for every date, the entries with that date appear
      in the result in exactly the order they had in the input. */
  lemma {:induction false} SortDescStable(s: seq<Entry>, k: Date)
    ensures FilterKey(SortDesc(s), k) == FilterKey(s, k)
  {
    if s != [] {
      var init := s[..|s| - 1];
      SortDescStable(init, k);
      InsertDescFilter(s[|s| - 1], SortDesc(init), k);
    }
  }

  /** Where the scan of `InsertDesc` stops: at `j`, after the entries whose key
      is not below `x`'s and before those whose key is. */
  lemma {:induction false} InsertDescAt(x: Entry, p: seq<Entry>, j: nat)
    requires j <= |p|
    requires forall k | j <= k < |p| :: Less(p[k].key, x.key)
    requires j == 0 || !Less(p[j - 1].key, x.key)
    ensures InsertDesc(x, p) == p[..j] + [x] + p[j..]
  {
    if j < |p| {
      var init := p[..|p| - 1];
      InsertDescAt(x, init, j);
      assert init[..j] == p[..j];
      assert p[j..] == init[j..] + [p[|p| - 1]];
    } else {
      assert p[..j] == p;
    }
  }

  lemma SortDescSnoc(s: seq<Entry>, i: nat)
    requires i < |s|
    ensures SortDesc(s[..i + 1]) == InsertDesc(s[i], SortDesc(s[..i]))
  {
    assert s[..i + 1][..i] == s[..i];
  }

  /** Every entry carries the key of its own line. */
  predicate WellKeyed(es: seq<Entry>, key: string -> Option<Date>) {
    forall e | e in es :: key(e.line) == Some(e.key)
  }

  /** The keys pass of `lines.sort(key=...)`: the key of every line in list
      order, or the first line whose key raises. */
  function Decorate(lines: seq<string>, key: string -> Option<Date>): (r: Result<seq<Entry>, string>)
    ensures r.Success? ==> Lines(r.value) == lines && WellKeyed(r.value, key)
    ensures r.Failure? ==> r.error in lines && key(r.error) == None
  {
    if lines == [] then Success([])
    else
      var init, last := lines[..|lines| - 1], lines[|lines| - 1];
      match Decorate(init, key)
      case Failure(bad) => Failure(bad)
      case Success(es) =>
        match key(last)
        case None => Failure(last)
        case Some(k) =>
          LinesSnoc(es, Entry(k, last));
          Success(es + [Entry(k, last)])
  }

  /** One more key computed by the keys pass. */
  lemma DecorateStep(lines: seq<string>, key: string -> Option<Date>, i: nat, es: seq<Entry>, k: Date)
    requires i < |lines|
    requires Decorate(lines[..i], key) == Success(es) && key(lines[i]) == Some(k)
    ensures Decorate(lines[..i + 1], key) == Success(es + [Entry(k, lines[i])])
  {
    assert lines[..i + 1][..i] == lines[..i];
  }

  /** Once the keys of a prefix are computed, the first line whose key
      raises is the one reported, whatever follows it. */
  lemma {:induction false} DecorateFirstFailure(lines: seq<string>, key: string -> Option<Date>, i: nat)
    requires i < |lines|
    requires Decorate(lines[..i], key).Success? && key(lines[i]) == None
    ensures Decorate(lines, key) == Failure(lines[i])
  {
    var init := lines[..|lines| - 1];
    if i < |lines| - 1 {
      assert init[..i] == lines[..i];
      DecorateFirstFailure(init, key, i);
    } else {
      assert init == lines[..i];
    }
  }

  /** A failing keys pass names a line whose key raises and before which
      every key was computed. */
  lemma {:induction false} DecorateFailureIsFirst(lines: seq<string>, key: string -> Option<Date>)
    requires Decorate(lines, key).Failure?
    ensures exists i | 0 <= i < |lines| ::
      lines[i] == Decorate(lines, key).error && Decorate(lines[..i], key).Success?
  {
    var init := lines[..|lines| - 1];
    if Decorate(init, key).Failure? {
      DecorateFailureIsFirst(init, key);
      var i :| 0 <= i < |init| && init[i] == Decorate(init, key).error && Decorate(init[..i], key).Success?;
      assert init[..i] == lines[..i];
    } else {
      assert lines[..|lines| - 1] == init;
    }
  }

  /** The keys pass fails exactly when some line's key raises, and the line
      it names comes after lines whose keys were all computed. */
  lemma DecorateFails(lines: seq<string>, key: string -> Option<Date>)
    ensures Decorate(lines, key).Failure? <==> exists i | 0 <= i < |lines| :: key(lines[i]) == None
    ensures Decorate(lines, key).Failure? ==>
      exists i | 0 <= i < |lines| ::
        && lines[i] == Decorate(lines, key).error
        && key(lines[i]) == None
        && forall j | 0 <= j < i :: key(lines[j]).Some?
  {
    if Decorate(lines, key).Failure? {
      DecorateFailureIsFirst(lines, key);
      var i :| 0 <= i < |lines| && lines[i] == Decorate(lines, key).error && Decorate(lines[..i], key).Success?;
      var es := Decorate(lines[..i], key).value;
      forall j | 0 <= j < i ensures key(lines[j]).Some? {
        assert es[j] in es;
        assert lines[..i][j] == lines[j];
      }
    } else {
      var es := Decorate(lines, key).value;
      forall i | 0 <= i < |lines| ensures key(lines[i]).Some? {
        assert es[i] in es;
      }
    }
  }

  /** The sort keeps every entry with its own key. */
  lemma SortedWellKeyed(es: seq<Entry>, key: string -> Option<Date>)
    requires WellKeyed(es, key)
    ensures WellKeyed(SortDesc(es), key)
  {
    SortDescPermutation(es);
    forall e | e in SortDesc(es) ensures key(e.line) == Some(e.key) {
      assert e in multiset(SortDesc(es));
    }
  }

  /** The lines whose key is `k`, in their order. */
  function FilterLines(lines: seq<string>, key: string -> Option<Date>, k: Date): seq<string> {
    if lines == [] then []
    else
      FilterLines(lines[..|lines| - 1], key, k)
        + (if key(lines[|lines| - 1]) == Some(k) then [lines[|lines| - 1]] else [])
  }

  /** For keyed entries, selecting the entries of a date and selecting the
      lines of that date agree. */
  lemma {:induction false} FilterKeyLines(es: seq<Entry>, key: string -> Option<Date>, k: Date)
    requires WellKeyed(es, key)
    ensures Lines(FilterKey(es, k)) == FilterLines(Lines(es), key, k)
  {
    if es != [] {
      var init, last := es[..|es| - 1], es[|es| - 1];
      FilterKeyLines(init, key, k);
      LinesSnoc(init, last);
      assert es == init + [last];
      assert last in es;
      if last.key == k {
        LinesSnoc(FilterKey(init, k), last);
      } else {
        assert FilterKey(init, k) + [] == FilterKey(init, k);
      }
    }
  }

  /** The keys pass: the key of every line, in list order, into a fresh
      array; the first key that raises stops it. */
  method DecorateLines(lines: seq<string>, key: string -> Option<Date>) returns (r: Result<array<Entry>, string>)
    ensures r.Failure? ==> Decorate(lines, key) == Failure(r.error)
    ensures r.Success? ==> fresh(r.value) && Decorate(lines, key) == Success(r.value[..])
  {
    var entries := new Entry[|lines|];
    for i := 0 to |lines|
      invariant Decorate(lines[..i], key) == Success(entries[..i])
    {
      var k := key(lines[i]);
      if k == None {
        DecorateFirstFailure(lines, key, i);
        return Failure(lines[i]);
      }
      DecorateStep(lines, key, i, entries[..i], k.value);
      entries[i] := Entry(k.value, lines[i]);
      assert entries[..i + 1] == entries[..i] + [Entry(k.value, lines[i])];
    }
    assert lines[..|lines|] == lines;
    assert entries[..] == entries[..|lines|];
    return Success(entries);
  }

  /** One step of the insertion sort: moves `a[i]` left past the entries
      of the sorted prefix whose key is below its own. */
  method InsertLast(a: array<Entry>, i: nat)
    requires i < a.Length
    modifies a
    ensures a[..i + 1] == InsertDesc(old(a[i]), old(a[..i]))
    ensures a[i + 1..] == old(a[i + 1..])
  {
    ghost var p := a[..i];
    var x := a[i];
    var j := i;
    while j > 0 && Less(a[j - 1].key, a[j].key)
      invariant 0 <= j <= i
      invariant a[j] == x
      invariant forall k | 0 <= k < j :: a[k] == p[k]
      invariant forall k | j < k <= i :: a[k] == p[k - 1]
      invariant forall k | j <= k < i :: Less(p[k].key, x.key)
      invariant a[i + 1..] == old(a[i + 1..])
    {
      a[j - 1], a[j] := a[j], a[j - 1];
      j := j - 1;
    }
    InsertDescAt(x, p, j);
    assert a[..i + 1] == p[..j] + [x] + p[j..];
  }

  /** In-place insertion sort of the decorated list: the array ends up
      holding the stable descending sort of what it held. */
  method SortByDateDesc(a: array<Entry>)
    modifies a
    ensures a[..] == SortDesc(old(a[..]))
  {
    ghost var input := a[..];
    var i := 0;
    while i < a.Length
      invariant 0 <= i <= a.Length
      invariant a[..i] == SortDesc(input[..i])
      invariant a[i..] == input[i..]
    {
      ghost var before := a[..];
      assert before[..i] == SortDesc(input[..i]);
      assert before[i] == input[i] && before[i + 1..] == input[i + 1..] by {
        assert before[i..] == input[i..];
      }
      InsertLast(a, i);
      SortDescSnoc(input, i);
      i := i + 1;
    }
    assert input[..a.Length] == input;
  }
}
