/** sort's heapsort in place, and what it writes (sort/sort.c). */
module Sort {
  import opened Utf8
  import opened Compare

  const NEWLINE: Byte := 0x0A

  /* ---- order on lines ---- */

  ghost predicate Lines(ls: seq<Line>, input: seq<Byte>) {
    forall i :: 0 <= i < |ls| ==> LineIn(ls[i], input)
  }

  /** a does not come before b. */
  ghost predicate Ge(a: Line, b: Line, input: seq<Byte>, o: Options) {
    LineIn(a, input) && LineIn(b, input) && Order(TextOf(a, input), TextOf(b, input), o) >= 0
  }

  lemma GeTotal(a: Line, b: Line, input: seq<Byte>, o: Options)
    requires LineIn(a, input) && LineIn(b, input)
    ensures Ge(a, b, input, o) || Ge(b, a, input, o)
    ensures Ge(a, b, input, o) <==> Order(TextOf(a, input), TextOf(b, input), o) >= 0
    ensures Ge(b, a, input, o) <==> Order(TextOf(a, input), TextOf(b, input), o) <= 0
  {
    hide Order;
    OrderTurns(TextOf(a, input), TextOf(b, input), o);
  }

  lemma GeChains(a: Line, b: Line, c: Line, input: seq<Byte>, o: Options)
    requires Ge(a, b, input, o) && Ge(b, c, input, o)
    ensures Ge(a, c, input, o)
  {
    hide Order;
    var x, y, z := TextOf(a, input), TextOf(b, input), TextOf(c, input);
    OrderTurns(x, y, o);
    OrderTurns(y, z, o);
    OrderTurns(x, z, o);
    OrderChains(z, y, x, o);
  }

  ghost predicate Sorted(ls: seq<Line>, input: seq<Byte>, o: Options) {
    forall i, j :: 0 <= i < j < |ls| ==> Ge(ls[j], ls[i], input, o)
  }

  /* ---- heaps ---- */

  function Parent(c: nat): (p: nat)
    requires c > 0
    ensures p < c && (c == 2 * p + 1 || c == 2 * p + 2)
  {
    (c - 1) / 2
  }

  /** From index `from` on, no element of the first `end` comes after its parent; the children of r may. */
  ghost predicate HeapBut(ls: seq<Line>, from: nat, end: nat, r: nat, input: seq<Byte>, o: Options)
    requires end <= |ls|
  {
    && (forall c :: 0 < c < end && from <= Parent(c) && Parent(c) != r ==> Ge(ls[Parent(c)], ls[c], input, o))
    && (forall c :: 0 < c < end && Parent(c) == r && r > 0 && from <= Parent(r) ==> Ge(ls[Parent(r)], ls[c], input, o))
  }

  ghost predicate Heap(ls: seq<Line>, from: nat, end: nat, input: seq<Byte>, o: Options)
    requires end <= |ls|
  {
    forall c :: 0 < c < end && from <= Parent(c) ==> Ge(ls[Parent(c)], ls[c], input, o)
  }

  function Swapped<T>(s: seq<T>, i: nat, j: nat): (r: seq<T>)
    requires i < |s| && j < |s|
    ensures |r| == |s| && multiset(r) == multiset(s)
  {
    SwapKeeps(s, i, j);
    s[i := s[j]][j := s[i]]
  }

  lemma SwapKeeps<T>(s: seq<T>, i: nat, j: nat)
    requires i < |s| && j < |s|
    ensures multiset(s[i := s[j]][j := s[i]]) == multiset(s)
  {
  }

  /** The larger child goes up. */
  lemma SiftStep(ls: seq<Line>, from: nat, end: nat, r: nat, child: nat, input: seq<Byte>, o: Options)
    requires end <= |ls| && from <= r && 0 < child < end && Parent(child) == r && HeapBut(ls, from, end, r, input, o)
    requires Ge(ls[child], ls[r], input, o)
    requires forall c :: 0 < c < end && Parent(c) == r ==> Ge(ls[child], ls[c], input, o)
    ensures HeapBut(Swapped(ls, r, child), from, end, child, input, o)
  {
    hide Ge;
    var s := Swapped(ls, r, child);
    assert s[r] == ls[child] && s[child] == ls[r];
    assert forall i :: 0 <= i < |ls| && i != r && i != child ==> s[i] == ls[i];
    forall c | 0 < c < end && from <= Parent(c) && Parent(c) != child ensures Ge(s[Parent(c)], s[c], input, o) {
      if c == r { assert Ge(ls[Parent(r)], ls[child], input, o); }
    }
    forall c | 0 < c < end && Parent(c) == child ensures Ge(s[r], s[c], input, o) {
      assert c != r;
    }
  }

  lemma SiftEnds(ls: seq<Line>, from: nat, end: nat, r: nat, child: nat, input: seq<Byte>, o: Options)
    requires end <= |ls| && from <= r < |ls| && HeapBut(ls, from, end, r, input, o)
    requires 0 < child && Parent(child) == r
    requires child < end ==> Ge(ls[r], ls[child], input, o)
    requires forall c :: 0 < c < end && Parent(c) == r ==> child < end && Ge(ls[child], ls[c], input, o)
    ensures Heap(ls, from, end, input, o)
  {
    hide Ge;
    forall c | 0 < c < end && from <= Parent(c) ensures Ge(ls[Parent(c)], ls[c], input, o) {
      if Parent(c) == r { GeChains(ls[r], ls[child], ls[c], input, o); }
    }
  }

  /** A multiset's elements are a sequence's, and so is what holds of all. */
  lemma SameLines(a: seq<Line>, b: seq<Line>, input: seq<Byte>)
    requires multiset(a) == multiset(b) && Lines(a, input)
    ensures Lines(b, input)
  {
    forall i | 0 <= i < |b| ensures LineIn(b[i], input) {
      assert b[i] in multiset(b);
      assert b[i] in multiset(a);
    }
  }

  /** Whether they are a heap is up to the first `end` alone. */
  lemma HeapOfFirst(ls: seq<Line>, n: nat, from: nat, end: nat, r: nat, input: seq<Byte>, o: Options)
    requires end <= n <= |ls|
    ensures HeapBut(ls[..n], from, end, r, input, o) <==> HeapBut(ls, from, end, r, input, o)
    ensures Heap(ls[..n], from, end, input, o) <==> Heap(ls, from, end, input, o)
  {
    hide Ge;
    assert forall c :: 0 <= c < n ==> ls[..n][c] == ls[c];
  }

  lemma LinesOfParts(ls: seq<Line>, end: nat, input: seq<Byte>)
    requires end <= |ls|
    ensures Lines(ls, input) <==> Lines(ls[..end], input) && Lines(ls[end..], input)
  {
    hide LineIn;
    assert ls == ls[..end] + ls[end..];
    assert forall c :: 0 <= c < end ==> ls[..end][c] == ls[c];
    assert forall c :: 0 <= c < |ls| - end ==> ls[end..][c] == ls[end + c];
  }

  /** The larger of a node's children, the first if they are equal; `end` or more if it has none. */
  method LargerChild(lines: array<Line>, r: nat, end: nat, input: seq<Byte>, o: Options) returns (child: nat)
    requires end <= lines.Length && Lines(lines[..end], input)
    ensures child > 0 && Parent(child) == r
    ensures forall c :: 0 < c < end && Parent(c) == r ==> child < end && Ge(lines[child], lines[c], input, o)
  {
    hide Order, Ge, LineIn, TextOf;
    child := r * 2 + 1;
    if child >= end { return; }
    assert LineIn(lines[..end][child], input);
    GeTotal(lines[child], lines[child], input, o);
    if child + 1 < end {
      assert LineIn(lines[..end][child + 1], input);
      GeTotal(lines[child], lines[child + 1], input, o);
      GeTotal(lines[child + 1], lines[child + 1], input, o);
      var d := CompareLines(lines[child], lines[child + 1], input, o);
      if d < 0 { child := child + 1; }
    }
  }

  /** The element at `root` goes down until no child of it comes after it. */
  method SiftDown(lines: array<Line>, root: nat, end: nat, input: seq<Byte>, o: Options)
    requires root < end <= lines.Length && Lines(lines[..end], input)
             && HeapBut(lines[..end], root, end, root, input, o)
    modifies lines
    ensures Heap(lines[..end], root, end, input, o) && Lines(lines[..end], input)
    ensures multiset(lines[..end]) == multiset(old(lines[..end])) && lines[end..] == old(lines[end..])
  {
    hide Order, Ge, LineIn, TextOf, HeapBut, Heap, Lines;
    var r := root;
    while true
      invariant root <= r < end && HeapBut(lines[..end], root, end, r, input, o) && Lines(lines[..end], input)
      invariant multiset(lines[..end]) == multiset(old(lines[..end])) && lines[end..] == old(lines[end..])
      modifies lines
      decreases end - r
    {
      var child := LargerChild(lines, r, end, input, o);
      assert forall c :: 0 <= c < end ==> lines[..end][c] == lines[c];
      if child >= end {
        SiftEnds(lines[..end], root, end, r, child, input, o);
        return;
      }
      LinesAt(lines[..end], r, input);
      LinesAt(lines[..end], child, input);
      GeTotal(lines[r], lines[child], input, o);
      var d := CompareLines(lines[r], lines[child], input, o);
      if d >= 0 {
        SiftEnds(lines[..end], root, end, r, child, input, o);
        return;
      }
      SiftStep(lines[..end], root, end, r, child, input, o);
      SwapInArray(lines, r, child, end, input);
      r := child;
    }
  }

  lemma LinesAt(ls: seq<Line>, i: nat, input: seq<Byte>)
    requires Lines(ls, input) && i < |ls|
    ensures LineIn(ls[i], input)
  {
  }

  method SwapInArray(lines: array<Line>, i: nat, j: nat, end: nat, input: seq<Byte>)
    requires i < end && j < end <= lines.Length && Lines(lines[..end], input)
    modifies lines
    ensures lines[..end] == Swapped(old(lines[..end]), i, j) && lines[end..] == old(lines[end..])
    ensures Lines(lines[..end], input)
  {
    ghost var was := lines[..end];
    var tmp := lines[i];
    lines[i] := lines[j];
    lines[j] := tmp;
    assert lines[..end] == Swapped(was, i, j);
    SameLines(was, lines[..end], input);
  }

  /** The first element of a heap is the last in order. */
  lemma {:induction false} RootIsLargest(ls: seq<Line>, end: nat, i: nat, input: seq<Byte>, o: Options)
    requires i < end <= |ls| && Heap(ls, 0, end, input, o) && Lines(ls, input)
    ensures Ge(ls[0], ls[i], input, o)
    decreases i
  {
    hide Ge;
    if i == 0 {
      GeTotal(ls[0], ls[0], input, o);
    } else {
      RootIsLargest(ls, end, Parent(i), input, o);
      GeChains(ls[0], ls[Parent(i)], ls[i], input, o);
    }
  }

  /** Nothing in front comes after anything in the tail. */
  ghost predicate Below(front: multiset<Line>, tail: seq<Line>, input: seq<Byte>, o: Options) {
    forall x, j :: x in front && 0 <= j < |tail| ==> Ge(tail[j], x, input, o)
  }

  lemma HeapLeaves(ls: seq<Line>, from: nat, end: nat, input: seq<Byte>, o: Options)
    requires end <= |ls| && 2 * from + 1 >= end
    ensures Heap(ls, from, end, input, o)
  {
  }

  /** A heap from root + 1 on is one from root on but for the root. */
  lemma HeapWithRoot(ls: seq<Line>, root: nat, end: nat, input: seq<Byte>, o: Options)
    requires end <= |ls| && Heap(ls, root + 1, end, input, o)
    ensures HeapBut(ls, root, end, root, input, o)
  {
  }

  /** After the first and the last element of a heap change places. */
  lemma HeapPopped(ls: seq<Line>, end: nat, input: seq<Byte>, o: Options)
    requires 0 < end < |ls| && Heap(ls, 0, end + 1, input, o)
    ensures HeapBut(Swapped(ls, 0, end), 0, end, 0, input, o)
  {
    var s := Swapped(ls, 0, end);
    assert forall i :: 0 < i < end ==> s[i] == ls[i];
  }

  /** The first element goes to the end of the heap. */
  lemma SwapEnds(ls: seq<Line>, end: nat)
    requires 0 < end < |ls|
    ensures var s := Swapped(ls, 0, end);
            && s[end..] == [ls[0]] + ls[end + 1..] && multiset(s[..end]) + multiset{ls[0]} == multiset(ls[..end + 1])
  {
    var s := Swapped(ls, 0, end);
    assert s[..end + 1] == Swapped(ls[..end + 1], 0, end) == s[..end] + [ls[0]];
  }

  lemma RootAboveAll(ls: seq<Line>, end: nat, x: Line, input: seq<Byte>, o: Options)
    requires end <= |ls| && Heap(ls, 0, end, input, o) && Lines(ls, input) && x in multiset(ls[..end])
    ensures Ge(ls[0], x, input, o)
  {
    hide Ge, Heap, Lines;
    var i: nat :| i < end && ls[..end][i] == x;
    RootIsLargest(ls, end, i, input, o);
  }

  /** What is taken off the heap goes in front of the tail. */
  lemma TailGrows(ls: seq<Line>, end: nat, input: seq<Byte>, o: Options)
    requires 0 < end < |ls| && Heap(ls, 0, end + 1, input, o) && Lines(ls, input)
    requires Sorted(ls[end + 1..], input, o) && Below(multiset(ls[..end + 1]), ls[end + 1..], input, o)
    ensures var s := Swapped(ls, 0, end);
            Sorted(s[end..], input, o) && Below(multiset(s[..end]), s[end..], input, o)
  {
    hide Ge, Heap, Lines, Swapped;
    var s, x, tail := Swapped(ls, 0, end), ls[0], ls[end + 1..];
    SwapEnds(ls, end);
    var front, whole := multiset(s[..end]), multiset(ls[..end + 1]);
    assert x in whole by { assert front + multiset{x} == whole; }
    forall e, j | e in front && 0 <= j < |[x] + tail| ensures Ge(([x] + tail)[j], e, input, o) {
      assert e in whole by { assert front + multiset{x} == whole; }
      if j == 0 { RootAboveAll(ls, end + 1, e, input, o); }
    }
    TailSorted(x, tail, whole, input, o);
  }

  lemma TailSorted(x: Line, tail: seq<Line>, front: multiset<Line>, input: seq<Byte>, o: Options)
    requires Sorted(tail, input, o) && x in front && Below(front, tail, input, o)
    ensures Sorted([x] + tail, input, o)
  {
    hide Ge;
  }

  /** The first `end` lines are a heap, and the others in order and behind them. */
  ghost predicate Popping(ls: seq<Line>, end: nat, input: seq<Byte>, o: Options) {
    && end <= |ls| && Lines(ls, input) && Heap(ls, 0, end, input, o)
    && Sorted(ls[end..], input, o) && Below(multiset(ls[..end]), ls[end..], input, o)
  }

  /** The largest line of the heap goes behind it. */
  method PopLargest(lines: array<Line>, n: nat, end: nat, input: seq<Byte>, o: Options)
    requires 0 < end < n <= lines.Length && Popping(lines[..n], end + 1, input, o)
    modifies lines
    ensures Popping(lines[..n], end, input, o) && multiset(lines[..n]) == multiset(old(lines[..n]))
            && lines[n..] == old(lines[n..])
  {
    hide Ge, LineIn, HeapBut, Heap, Lines, Sorted, Below, Swapped;
    ghost var was := lines[..n];
    HeapPopped(was, end, input, o);
    TailGrows(was, end, input, o);
    SwapInArray(lines, 0, end, n, input);
    ghost var s, rest := lines[..n], lines[n..];
    assert s[..end] == lines[..end] && s[end..] + rest == lines[end..];
    HeapOfFirst(s, end, 0, end, 0, input, o);
    LinesOfParts(s, end, input);
    SiftDown(lines, 0, end, input, o);
    ghost var t := lines[..n];
    assert t[..end] == lines[..end] && t[end..] + lines[n..] == lines[end..];
    AppendSame(t[end..], lines[n..], s[end..], rest);
    HeapOfFirst(t, end, 0, end, 0, input, o);
    LinesOfParts(t, end, input);
    SameParts(s, t, end);
    assert multiset(s) == multiset(was) by { assert s == Swapped(was, 0, end); }
  }

  lemma AppendSame<T>(a: seq<T>, b: seq<T>, c: seq<T>, d: seq<T>)
    requires a + b == c + d && |a| == |c|
    ensures a == c && b == d
  {
    assert a == (a + b)[..|a|] && b == (a + b)[|a|..];
  }

  lemma SameParts(a: seq<Line>, b: seq<Line>, end: nat)
    requires end <= |a| && end <= |b| && multiset(a[..end]) == multiset(b[..end]) && a[end..] == b[end..]
    ensures multiset(a) == multiset(b)
  {
    assert a == a[..end] + a[end..] && b == b[..end] + b[end..];
  }

  method BuildHeap(lines: array<Line>, n: nat, input: seq<Byte>, o: Options)
    requires n <= lines.Length && Lines(lines[..n], input)
    modifies lines
    ensures Heap(lines[..n], 0, n, input, o) && Lines(lines[..n], input)
    ensures multiset(lines[..n]) == multiset(old(lines[..n])) && lines[n..] == old(lines[n..])
  {
    hide Ge, LineIn, HeapBut, Heap, Lines;
    var root: nat := n / 2;
    HeapLeaves(lines[..n], root, n, input, o);
    while root > 0
      invariant root <= n / 2 && Heap(lines[..n], root, n, input, o) && Lines(lines[..n], input)
      invariant multiset(lines[..n]) == multiset(old(lines[..n])) && lines[n..] == old(lines[n..])
      modifies lines
    {
      root := root - 1;
      HeapWithRoot(lines[..n], root, n, input, o);
      SiftDown(lines, root, n, input, o);
    }
  }

  /** sort_lines: for every set of options the first n lines are put in order, each as often as before; what is behind
      them stays. */
  method SortLines(lines: array<Line>, n: nat, input: seq<Byte>, o: Options)
    requires n <= lines.Length && Lines(lines[..n], input)
    modifies lines
    ensures Sorted(lines[..n], input, o) && multiset(lines[..n]) == multiset(old(lines[..n]))
            && lines[n..] == old(lines[n..])
    ensures Lines(lines[..n], input)
  {
    hide Ge, LineIn, Heap, Lines, Sorted, Below;
    BuildHeap(lines, n, input, o);
    var end: nat := n;
    NothingSorted(lines[..n], input, o);
    while end > 1
      invariant end <= n && Popping(lines[..n], end, input, o)
      invariant multiset(lines[..n]) == multiset(old(lines[..n])) && lines[n..] == old(lines[n..])
      modifies lines
    {
      end := end - 1;
      PopLargest(lines, n, end, input, o);
    }
    LastIsSorted(lines[..n], end, input, o);
  }

  lemma NothingSorted(ls: seq<Line>, input: seq<Byte>, o: Options)
    ensures Sorted(ls[|ls|..], input, o) && Below(multiset(ls[..|ls|]), ls[|ls|..], input, o)
  {
  }

  lemma LastIsSorted(ls: seq<Line>, end: nat, input: seq<Byte>, o: Options)
    requires end <= 1 && end <= |ls| && Sorted(ls[end..], input, o) && Below(multiset(ls[..end]), ls[end..], input, o)
    ensures Sorted(ls, input, o)
  {
    hide Ge;
    if end == 1 {
      assert ls[..1][0] == ls[0];
      assert ls[0] in multiset(ls[..1]);
    }
    forall i, j | 0 <= i < j < |ls| ensures Ge(ls[j], ls[i], input, o) {
      assert ls[j] == ls[end..][j - end];
      if i >= end { assert ls[i] == ls[end..][i - end]; }
    }
  }

  /* ---- lines of the input ---- */

  /** The lines from byte i on, when the current one starts at `start`. */
  function SplitFrom(input: seq<Byte>, start: nat, i: nat): (ls: seq<Line>)
    requires start <= i <= |input|
    ensures Lines(ls, input)
    decreases |input| - i
  {
    if i == |input| then (if start < i then [Line(start, i - start)] else [])
    else if input[i] == NEWLINE then [Line(start, i - start)] + SplitFrom(input, i + 1, i + 1)
    else SplitFrom(input, start, i + 1)
  }

  /** Lines as they are written. */
  function Written(ls: seq<Line>, input: seq<Byte>): seq<Byte>
    requires Lines(ls, input)
  {
    if |ls| == 0 then [] else Written(ls[..|ls| - 1], input) + TextOf(ls[|ls| - 1], input) + [NEWLINE]
  }

  lemma {:induction false} WrittenAppend(a: seq<Line>, b: seq<Line>, input: seq<Byte>)
    requires Lines(a, input) && Lines(b, input)
    ensures Written(a + b, input) == Written(a, input) + Written(b, input)
    decreases |b|
  {
    hide TextOf, LineIn, Written;
    if |b| == 0 {
      NothingWritten(input, Options(false, false, false, false, false));
      assert a + b == a && b == [] && Written(a, input) + [] == Written(a, input);
    } else {
      var front, last := b[..|b| - 1], b[|b| - 1];
      WrittenAppend(a, front, input);
      WrittenSnoc(a + front, last, input);
      WrittenSnoc(front, last, input);
      assert b == front + [last] && a + b == a + front + [last];
    }
  }

  /** Splitting loses nothing: the lines written again are the input, a newline added where the last line had none. */
  lemma {:induction false} SplitIsInput(input: seq<Byte>, start: nat, i: nat)
    requires start <= i <= |input| && forall k :: start <= k < i ==> input[k] != NEWLINE
    ensures Written(SplitFrom(input, start, i), input)
            == input[start..] + (if start < |input| && input[|input| - 1] != NEWLINE then [NEWLINE] else [])
    decreases |input| - i
  {
    hide Written, TextOf;
    if i == |input| {
      if start < i {
        WrittenOne(Line(start, i - start), input);
        assert TextOf(Line(start, i - start), input) == input[start..] by { TextIs(start, i, input); }
      } else {
        NothingWritten(input, Options(false, false, false, false, false));
      }
    } else if input[i] == NEWLINE {
      var first, rest := Line(start, i - start), SplitFrom(input, i + 1, i + 1);
      SplitIsInput(input, i + 1, i + 1);
      WrittenAppend([first], rest, input);
      WrittenOne(first, input);
      TextIs(start, i, input);
      var end := if i + 1 < |input| && input[|input| - 1] != NEWLINE then [NEWLINE] else [];
      assert input[start..] == input[start..i] + [NEWLINE] + input[i + 1..];
      assert (input[start..i] + [NEWLINE]) + (input[i + 1..] + end)
             == input[start..i] + [NEWLINE] + input[i + 1..] + end;
    } else {
      SplitIsInput(input, start, i + 1);
    }
  }

  lemma TextIs(start: nat, i: nat, input: seq<Byte>)
    requires start <= i <= |input|
    ensures LineIn(Line(start, i - start), input) && TextOf(Line(start, i - start), input) == input[start..i]
  {
  }

  lemma WrittenOne(l: Line, input: seq<Byte>)
    requires LineIn(l, input)
    ensures Written([l], input) == TextOf(l, input) + [NEWLINE]
  {
    assert [l][..0] == [];
  }

  /** The line index; false if there are more lines than it has room for. */
  method IndexLines(input: seq<Byte>, lines: array<Line>) returns (ok: bool, n: nat)
    modifies lines
    ensures ok <==> |SplitFrom(input, 0, 0)| <= lines.Length
    ensures ok ==> n <= lines.Length && lines[..n] == SplitFrom(input, 0, 0)
  {
    hide Lines;
    n := 0;
    var start, i := 0, 0;
    while i < |input|
      invariant start <= i <= |input| && n <= lines.Length
      invariant lines[..n] + SplitFrom(input, start, i) == SplitFrom(input, 0, 0)
      modifies lines
    {
      if input[i] == NEWLINE {
        if n == lines.Length { return false, n; }
        lines[n] := Line(start, i - start);
        n := n + 1;
        start := i + 1;
      }
      i := i + 1;
    }
    if start < |input| {
      if n == lines.Length { return false, n; }
      lines[n] := Line(start, |input| - start);
      n := n + 1;
    }
    ok := true;
  }

  /* ---- what is written ---- */

  /** Strictly before. */
  ghost predicate Lt(a: Line, b: Line, input: seq<Byte>, o: Options) {
    LineIn(a, input) && LineIn(b, input) && !Ge(a, b, input, o)
  }

  ghost predicate Same(a: Line, b: Line, input: seq<Byte>, o: Options) {
    Ge(a, b, input, o) && Ge(b, a, input, o)
  }

  /** One line of each class of the first n, in order, and the last of them of the class of the last. */
  ghost predicate OneOfEach(w: seq<Line>, ls: seq<Line>, input: seq<Byte>, o: Options) {
    && (forall i, j :: 0 <= i < j < |w| ==> Lt(w[i], w[j], input, o))
    && (forall i :: 0 <= i < |w| ==> w[i] in ls)
    && (forall k :: 0 <= k < |ls| ==> exists i :: 0 <= i < |w| && Same(w[i], ls[k], input, o))
    && (|ls| > 0 ==> |w| > 0 && Same(w[|w| - 1], ls[|ls| - 1], input, o))
  }

  lemma SameChains(a: Line, b: Line, c: Line, input: seq<Byte>, o: Options)
    requires Same(a, b, input, o) && Same(b, c, input, o)
    ensures Same(a, c, input, o)
  {
    hide Ge;
    GeChains(a, b, c, input, o);
    GeChains(c, b, a, input, o);
  }

  lemma LtChains(a: Line, b: Line, c: Line, input: seq<Byte>, o: Options)
    requires Ge(b, a, input, o) && Lt(b, c, input, o)
    ensures Lt(a, c, input, o)
  {
    hide Order;
    if Ge(a, c, input, o) { GeChains(b, a, c, input, o); }
  }

  /** A line of the class of the one before it is not written ... */
  lemma ClassGoesOn(w: seq<Line>, ls: seq<Line>, l: Line, input: seq<Byte>, o: Options)
    requires OneOfEach(w, ls, input, o) && |ls| > 0 && Same(ls[|ls| - 1], l, input, o)
    ensures OneOfEach(w, ls + [l], input, o)
  {
    hide Same, Lt;
    SameChains(w[|w| - 1], ls[|ls| - 1], l, input, o);
    forall k | 0 <= k < |ls + [l]| ensures exists i :: 0 <= i < |w| && Same(w[i], (ls + [l])[k], input, o) {
      if k < |ls| { assert (ls + [l])[k] == ls[k]; }
    }
  }

  /** ... and the first line of a class is. */
  lemma ClassStarts(w: seq<Line>, ls: seq<Line>, l: Line, input: seq<Byte>, o: Options)
    requires OneOfEach(w, ls, input, o) && LineIn(l, input) && (|ls| > 0 ==> Lt(ls[|ls| - 1], l, input, o))
    ensures OneOfEach(w + [l], ls + [l], input, o)
  {
    hide Same, Lt, LineIn;
    SameSelf(l, input, o);
    ClassesGrow(w, ls, l, input, o);
    forall k | 0 <= k < |ls + [l]|
      ensures exists i :: 0 <= i < |w + [l]| && Same((w + [l])[i], (ls + [l])[k], input, o)
    {
      ClassCovered(w, ls, l, k, input, o);
    }
    assert (w + [l])[|w|] == l;
  }

  lemma ClassesGrow(w: seq<Line>, ls: seq<Line>, l: Line, input: seq<Byte>, o: Options)
    requires OneOfEach(w, ls, input, o) && (|ls| > 0 ==> Lt(ls[|ls| - 1], l, input, o))
    ensures forall i, j :: 0 <= i < j < |w + [l]| ==> Lt((w + [l])[i], (w + [l])[j], input, o)
  {
    hide Same, Lt;
    forall i, j | 0 <= i < j < |w + [l]| ensures Lt((w + [l])[i], (w + [l])[j], input, o) {
      if j == |w| { WrittenBefore(w, ls, l, i, input, o); }
    }
  }

  lemma ClassCovered(w: seq<Line>, ls: seq<Line>, l: Line, k: nat, input: seq<Byte>, o: Options)
    requires OneOfEach(w, ls, input, o) && Same(l, l, input, o) && k < |ls + [l]|
    ensures exists i :: 0 <= i < |w + [l]| && Same((w + [l])[i], (ls + [l])[k], input, o)
  {
    hide Same, Lt;
    if k < |ls| {
      var i :| 0 <= i < |w| && Same(w[i], ls[k], input, o);
      assert (w + [l])[i] == w[i] && (ls + [l])[k] == ls[k];
    } else {
      assert (w + [l])[|w|] == l == (ls + [l])[k];
    }
  }

  lemma SameSelf(l: Line, input: seq<Byte>, o: Options)
    requires LineIn(l, input)
    ensures Same(l, l, input, o)
  {
    GeTotal(l, l, input, o);
  }

  lemma WrittenBefore(w: seq<Line>, ls: seq<Line>, l: Line, i: nat, input: seq<Byte>, o: Options)
    requires OneOfEach(w, ls, input, o) && i < |w| && (|ls| > 0 ==> Lt(ls[|ls| - 1], l, input, o))
    ensures Lt(w[i], l, input, o)
  {
    hide Ge;
    assert |ls| > 0 by { assert w[i] in ls; }
    var last := w[|w| - 1];
    LtChains(last, ls[|ls| - 1], l, input, o);
    if i < |w| - 1 {
      assert Lt(w[i], last, input, o);
      GeTotal(w[i], last, input, o);
      LtChains(w[i], last, l, input, o);
    }
  }

  /** What the input is written as: its lines in order, or with -u exactly one of each class of lines that count as
      equal, in order. */
  ghost predicate Output(out: seq<Byte>, input: seq<Byte>, o: Options) {
    exists w :: Lines(w, input) && out == Written(w, input)
                && if o.unique then Distinguished(w, input, o)
                   else Sorted(w, input, o) && multiset(w) == multiset(SplitFrom(input, 0, 0))
  }

  ghost predicate Distinguished(w: seq<Line>, input: seq<Byte>, o: Options) {
    exists ls :: multiset(ls) == multiset(SplitFrom(input, 0, 0)) && OneOfEach(w, ls, input, o)
  }

  /** One of each: every line of the input counts as equal to exactly one line written. */
  lemma ExactlyOne(w: seq<Line>, input: seq<Byte>, o: Options, l: Line)
    requires Lines(w, input) && Distinguished(w, input, o) && l in SplitFrom(input, 0, 0)
    ensures exists i ::
              && 0 <= i < |w| && Same(w[i], l, input, o)
              && forall j :: 0 <= j < |w| && Same(w[j], l, input, o) ==> j == i
  {
    hide Same, SplitFrom, OneOfEach, Lines;
    var all := SplitFrom(input, 0, 0);
    var ls :| multiset(ls) == multiset(all) && OneOfEach(w, ls, input, o);
    assert l in multiset(all);
    assert l in multiset(ls);
    var i := WrittenFor(w, ls, l, input, o);
    forall j | 0 <= j < |w| && Same(w[j], l, input, o) ensures j == i { NotTwice(w, ls, i, j, l, input, o); }
  }

  lemma WrittenFor(w: seq<Line>, ls: seq<Line>, l: Line, input: seq<Byte>, o: Options) returns (i: nat)
    requires OneOfEach(w, ls, input, o) && l in ls
    ensures i < |w| && Same(w[i], l, input, o)
  {
    hide Same, Lt;
    var k: nat :| k < |ls| && ls[k] == l;
    i :| 0 <= i < |w| && Same(w[i], ls[k], input, o);
  }

  lemma NotTwice(w: seq<Line>, ls: seq<Line>, i: nat, j: nat, l: Line, input: seq<Byte>, o: Options)
    requires OneOfEach(w, ls, input, o) && i < |w| && j < |w| && Same(w[i], l, input, o) && Same(w[j], l, input, o)
    ensures i == j
  {
    hide Ge;
    assert i < j ==> Lt(w[i], w[j], input, o);
    assert j < i ==> Lt(w[j], w[i], input, o);
    SameChains(w[i], l, w[j], input, o);
  }

  /** How many lines the index needs room for. */
  method CountLines(input: seq<Byte>) returns (n: nat)
    ensures n == |SplitFrom(input, 0, 0)|
  {
    n := 0;
    var i := 0;
    ghost var start := 0;
    while i < |input|
      invariant start <= i <= |input| && (start < i ==> input[i - 1] != NEWLINE)
                && (0 < start == i ==> input[i - 1] == NEWLINE)
      invariant n + |SplitFrom(input, start, i)| == |SplitFrom(input, 0, 0)|
    {
      if input[i] == NEWLINE {
        n := n + 1;
        start := i + 1;
      }
      i := i + 1;
    }
    if |input| > 0 && input[|input| - 1] != NEWLINE { n := n + 1; }
  }

  /** sort_buffer: the lines in order, or with -u exactly one of each class of lines that count as equal. */
  method SortBuffer(input: seq<Byte>, lines: array<Line>, o: Options) returns (ok: bool, out: seq<Byte>)
    modifies lines
    ensures ok <==> |SplitFrom(input, 0, 0)| <= lines.Length
    ensures ok ==> Output(out, input, o)
  {
    hide SplitFrom, Sorted, OneOfEach, Ge, Order, Lines, TextOf;
    ghost var w: seq<Line> := [];
    out := [];
    var n;
    ok, n := IndexLines(input, lines);
    if !ok { return; }
    SplitLines(input);
    SortLines(lines, n, input, o);
    ghost var ls := lines[..n];
    var i := 0;
    NothingWritten(input, o);
    while i < n
      invariant i <= n && lines[..n] == ls && Lines(w, input) && out == Written(w, input)
      invariant if o.unique then OneOfEach(w, ls[..i], input, o) else w == ls[..i]
    {
      LinesAt(ls, i, input);
      var skip := false;
      assert ls[..i + 1] == ls[..i] + [ls[i]];
      if i > 0 {
        LinesAt(ls, i - 1, input);
        GeTotal(ls[i - 1], ls[i], input, o);
        SortedAt(ls, i - 1, i, input, o);
        assert ls[..i][i - 1] == ls[i - 1];
      }
      if o.unique && i > 0 {
        var d := CompareLines(lines[i - 1], lines[i], input, o);
        skip := d == 0;
      }
      if skip {
        ClassGoesOn(w, ls[..i], ls[i], input, o);
      } else {
        if o.unique { ClassStarts(w, ls[..i], ls[i], input, o); }
        out := out + TextOf(lines[i], input) + [NEWLINE];
        WrittenSnoc(w, ls[i], input);
        w := w + [ls[i]];
      }
      i := i + 1;
    }
    assert ls[..n] == ls;
  }

  lemma SplitLines(input: seq<Byte>)
    ensures Lines(SplitFrom(input, 0, 0), input)
  {
  }

  lemma NothingWritten(input: seq<Byte>, o: Options)
    ensures Lines([], input) && Written([], input) == [] && OneOfEach([], [], input, o)
  {
  }

  lemma SortedAt(ls: seq<Line>, i: nat, j: nat, input: seq<Byte>, o: Options)
    requires Sorted(ls, input, o) && i < j < |ls|
    ensures Ge(ls[j], ls[i], input, o)
  {
  }

  lemma WrittenSnoc(w: seq<Line>, l: Line, input: seq<Byte>)
    requires Lines(w, input) && LineIn(l, input)
    ensures Lines(w + [l], input) && Written(w + [l], input) == Written(w, input) + TextOf(l, input) + [NEWLINE]
  {
    assert (w + [l])[..|w|] == w;
  }

  /* ---- the program by its texts ---- */

  /** Texts, each ended by a newline. */
  function Ended(texts: seq<seq<Byte>>): seq<Byte>
    decreases |texts|
  {
    if |texts| == 0 then [] else Ended(texts[..|texts| - 1]) + texts[|texts| - 1] + [0x0A]
  }

  /** The lines of the input: texts without newlines, which ended one after the other are the input, a newline added
      where its last line had none. */
  ghost predicate LinesOf(texts: seq<seq<Byte>>, input: seq<Byte>) {
    && (forall i, j :: 0 <= i < |texts| && 0 <= j < |texts[i]| ==> texts[i][j] != 0x0A)
    && Ended(texts) == input + if |input| > 0 && input[|input| - 1] != 0x0A then [0x0A] else []
  }

  /** Texts that count as equal. */
  ghost predicate Alike(a: seq<Byte>, b: seq<Byte>, o: Options) {
    !ComesBefore(a, b, o) && !ComesBefore(b, a, o)
  }

  /** `out` is the lines of the input, as often as they are there, none before one it comes after; or with -u one of
      each kind, every one before those after it. */
  ghost predicate SortedOutput(out: seq<Byte>, input: seq<Byte>, o: Options) {
    exists texts: seq<seq<Byte>>, written: seq<seq<Byte>> :: SortedAs(out, input, o, texts, written)
  }

  ghost predicate SortedAs(out: seq<Byte>, input: seq<Byte>, o: Options, texts: seq<seq<Byte>>,
                           written: seq<seq<Byte>>) {
    && LinesOf(texts, input) && out == Ended(written)
    && (forall i, j :: 0 <= i < j < |written| ==> !ComesBefore(written[j], written[i], o))
    && (!o.unique ==> multiset(written) == multiset(texts))
    && (o.unique ==> EachKindOnce(written, texts, o))
  }

  ghost predicate EachKindOnce(written: seq<seq<Byte>>, texts: seq<seq<Byte>>, o: Options) {
    && (forall i, j :: 0 <= i < j < |written| ==> ComesBefore(written[i], written[j], o))
    && (forall i :: 0 <= i < |written| ==> written[i] in texts)
    && (forall k :: 0 <= k < |texts| ==> exists i :: 0 <= i < |written| && Alike(written[i], texts[k], o))
  }

  ghost function Texts(ls: seq<Line>, input: seq<Byte>): (ts: seq<seq<Byte>>)
    requires Lines(ls, input)
    ensures |ts| == |ls| && forall i :: 0 <= i < |ls| ==> ts[i] == TextOf(ls[i], input)
  {
    seq(|ls|, i requires 0 <= i < |ls| => TextOf(ls[i], input))
  }

  lemma {:induction false} WrittenIsEnded(ls: seq<Line>, input: seq<Byte>)
    requires Lines(ls, input)
    ensures Written(ls, input) == Ended(Texts(ls, input))
    decreases |ls|
  {
    hide TextOf;
    if |ls| > 0 {
      var n := |ls| - 1;
      WrittenIsEnded(ls[..n], input);
      assert Texts(ls, input)[..n] == Texts(ls[..n], input);
    }
  }

  lemma {:induction false} SplitHasNoNewline(input: seq<Byte>, start: nat, i: nat, k: nat)
    requires start <= i <= |input| && (forall j :: start <= j < i ==> input[j] != 0x0A)
             && k < |SplitFrom(input, start, i)|
    ensures var t := TextOf(SplitFrom(input, start, i)[k], input); forall j :: 0 <= j < |t| ==> t[j] != 0x0A
    decreases |input| - i
  {
    if i < |input| {
      if input[i] == NEWLINE {
        if k > 0 { SplitHasNoNewline(input, i + 1, i + 1, k - 1); }
      } else {
        SplitHasNoNewline(input, start, i + 1, k);
      }
    }
  }

  lemma SplitIsLines(input: seq<Byte>)
    ensures LinesOf(Texts(SplitFrom(input, 0, 0), input), input)
  {
    hide SplitFrom, Written, TextOf, Ended;
    var ls := SplitFrom(input, 0, 0);
    forall i, j | 0 <= i < |ls| && 0 <= j < |TextOf(ls[i], input)| ensures TextOf(ls[i], input)[j] != 0x0A {
      SplitHasNoNewline(input, 0, 0, i);
    }
    WrittenIsEnded(ls, input);
    SplitIsInput(input, 0, 0);
    assert input[0..] == input;
  }

  lemma CutOut<T>(s: seq<T>, k: nat)
    requires k < |s|
    ensures multiset(s) == multiset(s[..k] + s[k + 1..]) + multiset{s[k]}
  {
    assert s == s[..k] + [s[k]] + s[k + 1..];
  }

  lemma TextsCutOut(ls: seq<Line>, k: nat, input: seq<Byte>)
    requires Lines(ls, input) && k < |ls|
    ensures Lines(ls[..k] + ls[k + 1..], input)
    ensures multiset(Texts(ls, input)) == multiset(Texts(ls[..k] + ls[k + 1..], input)) + multiset{TextOf(ls[k], input)}
  {
    hide TextOf, LineIn;
    CutOut(Texts(ls, input), k);
    assert Texts(ls[..k] + ls[k + 1..], input) == Texts(ls, input)[..k] + Texts(ls, input)[k + 1..];
  }

  lemma SameRest<T>(a: multiset<T>, b: multiset<T>, x: T)
    requires a + multiset{x} == b + multiset{x}
    ensures a == b
  {
    assert a == a + multiset{x} - multiset{x};
    assert b == b + multiset{x} - multiset{x};
  }

  lemma FindIn<T>(a: seq<T>, b: seq<T>) returns (k: nat)
    requires |a| > 0 && multiset(a) == multiset(b)
    ensures k < |b| && b[k] == a[0]
  {
    assert a[0] in multiset(a) && a[0] in multiset(b);
    k :| k < |b| && b[k] == a[0];
  }

  lemma NoneAtAll<T>(a: seq<T>, b: seq<T>)
    requires |a| == 0 && multiset(a) == multiset(b)
    ensures a == b
  {
    assert |multiset(a)| == |a| && |multiset(b)| == |b|;
  }

  /** Lines as often, texts as often. */
  lemma {:induction false} TextsAsOften(a: seq<Line>, b: seq<Line>, input: seq<Byte>)
    requires Lines(a, input) && Lines(b, input) && multiset(a) == multiset(b)
    ensures multiset(Texts(a, input)) == multiset(Texts(b, input))
    decreases |a|
  {
    hide TextOf, LineIn, Lines, Texts;
    if |a| > 0 {
      var k := FindIn(a, b);
      var a1, b1 := a[..0] + a[1..], b[..k] + b[k + 1..];
      CutOut(a, 0);
      CutOut(b, k);
      SameRest(multiset(a1), multiset(b1), a[0]);
      TextsCutOut(a, 0, input);
      TextsCutOut(b, k, input);
      TextsAsOften(a1, b1, input);
    } else {
      NoneAtAll(a, b);
    }
  }

  /* ---- the conclusion ---- */

  lemma GeMeans(a: Line, b: Line, input: seq<Byte>, o: Options)
    requires LineIn(a, input) && LineIn(b, input)
    ensures Ge(a, b, input, o) <==> !ComesBefore(TextOf(a, input), TextOf(b, input), o)
  {
    hide Order, ComesBefore;
    OrderMeans(TextOf(a, input), TextOf(b, input), o);
  }

  lemma SortedMeans(w: seq<Line>, input: seq<Byte>, o: Options)
    requires Lines(w, input) && !o.unique && Sorted(w, input, o) && multiset(w) == multiset(SplitFrom(input, 0, 0))
    ensures SortedAs(Written(w, input), input, o, Texts(SplitFrom(input, 0, 0), input), Texts(w, input))
  {
    hide Ge, SplitFrom, LinesOf, ComesBefore, TextOf, Ended, Written;
    WrittenIsEnded(w, input);
    SplitIsLines(input);
    TextsAsOften(w, SplitFrom(input, 0, 0), input);
    forall i, j | 0 <= i < j < |w| ensures !ComesBefore(TextOf(w[j], input), TextOf(w[i], input), o) {
      GeMeans(w[j], w[i], input, o);
    }
  }

  lemma DistinguishedMeans(w: seq<Line>, input: seq<Byte>, o: Options)
    requires Lines(w, input) && o.unique && Distinguished(w, input, o)
    ensures SortedAs(Written(w, input), input, o, Texts(SplitFrom(input, 0, 0), input), Texts(w, input))
  {
    hide Ge, SplitFrom, LinesOf, ComesBefore, TextOf, Ended, Written, Distinguished, LineIn, EachKindOnce;
    var all := SplitFrom(input, 0, 0);
    WrittenIsEnded(w, input);
    SplitIsLines(input);
    DistinguishedOrder(w, input, o);
    DistinguishedKinds(w, input, o);
  }

  lemma DistinguishedOrder(w: seq<Line>, input: seq<Byte>, o: Options)
    requires Lines(w, input) && Distinguished(w, input, o)
    ensures forall i, j :: 0 <= i < j < |w| ==> ComesBefore(Texts(w, input)[i], Texts(w, input)[j], o)
    ensures forall i, j :: 0 <= i < j < |w| ==> !ComesBefore(Texts(w, input)[j], Texts(w, input)[i], o)
  {
    hide SplitFrom, ComesBefore, TextOf, OneOfEach, Lt;
    var ls :| multiset(ls) == multiset(SplitFrom(input, 0, 0)) && OneOfEach(w, ls, input, o);
    forall i, j | 0 <= i < j < |w|
      ensures ComesBefore(Texts(w, input)[i], Texts(w, input)[j], o)
      ensures !ComesBefore(Texts(w, input)[j], Texts(w, input)[i], o)
    {
      OrderAmong(w, ls, i, j, input, o);
      LtMeans(w[i], w[j], input, o);
    }
  }

  lemma OrderAmong(w: seq<Line>, ls: seq<Line>, i: nat, j: nat, input: seq<Byte>, o: Options)
    requires OneOfEach(w, ls, input, o) && i < j < |w|
    ensures Lt(w[i], w[j], input, o)
  {
    hide Lt, Same;
  }

  lemma LtMeans(a: Line, b: Line, input: seq<Byte>, o: Options)
    requires Lt(a, b, input, o)
    ensures LineIn(a, input) && LineIn(b, input)
    ensures ComesBefore(TextOf(a, input), TextOf(b, input), o) && !ComesBefore(TextOf(b, input), TextOf(a, input), o)
  {
    hide ComesBefore, TextOf, Order;
    OrderMeans(TextOf(a, input), TextOf(b, input), o);
  }

  lemma DistinguishedKinds(w: seq<Line>, input: seq<Byte>, o: Options)
    requires Lines(w, input) && Distinguished(w, input, o)
    ensures EachKindOnce(Texts(w, input), Texts(SplitFrom(input, 0, 0), input), o)
  {
    hide SplitFrom, ComesBefore, TextOf, Ge, OneOfEach;
    DistinguishedOrder(w, input, o);
    var all := SplitFrom(input, 0, 0);
    var ls :| multiset(ls) == multiset(all) && OneOfEach(w, ls, input, o);
    forall i | 0 <= i < |w| ensures Texts(w, input)[i] in Texts(all, input) {
      WrittenAmong(w, ls, i, input, o);
      assert w[i] in multiset(ls) && w[i] in multiset(all);
      var k: nat :| k < |all| && all[k] == w[i];
      assert Texts(all, input)[k] == Texts(w, input)[i];
    }
    forall k | 0 <= k < |all| ensures exists i :: 0 <= i < |w| && Alike(Texts(w, input)[i], Texts(all, input)[k], o) {
      assert all[k] in multiset(all) && all[k] in multiset(ls);
      var i := WrittenFor(w, ls, all[k], input, o);
      GeMeans(w[i], all[k], input, o);
      GeMeans(all[k], w[i], input, o);
      assert Alike(Texts(w, input)[i], Texts(all, input)[k], o);
    }
  }

  lemma WrittenAmong(w: seq<Line>, ls: seq<Line>, i: nat, input: seq<Byte>, o: Options)
    requires OneOfEach(w, ls, input, o) && i < |w|
    ensures w[i] in ls
  {
    hide Lt, Same;
  }

  /** What Output says of lines in the input, said of texts. */
  lemma OutputMeans(out: seq<Byte>, input: seq<Byte>, o: Options)
    requires Output(out, input, o)
    ensures SortedOutput(out, input, o)
  {
    hide Sorted, Distinguished, SplitFrom, Written, Lines, SortedAs;
    var w :| Lines(w, input) && out == Written(w, input)
             && if o.unique then Distinguished(w, input, o)
                else Sorted(w, input, o) && multiset(w) == multiset(SplitFrom(input, 0, 0));
    if o.unique { DistinguishedMeans(w, input, o); } else { SortedMeans(w, input, o); }
  }

  /** What main does with the whole input: counted first, there is room for every line. */
  method SortInput(input: seq<Byte>, o: Options) returns (out: seq<Byte>)
    ensures Output(out, input, o) && SortedOutput(out, input, o)
  {
    hide SplitFrom, Output, SortedOutput;
    var n := CountLines(input);
    var lines := new Line[n](_ => Line(0, 0));
    var ok;
    ok, out := SortBuffer(input, lines, o);
    OutputMeans(out, input, o);
  }
}
