/**
 The backward file-tail reader (scripts/trades_server.py:212-251). It reads fixed-size chunks from
 the end of the file and stops early; proved equal to: split the whole content on newlines, drop
 blank lines, keep the last `maxLines`.
 */
module JsonlTail {
  import opened Wrappers

  type Byte = b: nat | b < 256
  type Bytes = seq<Byte>

  const NEWLINE: Byte := 10
  const CHUNK_SIZE: nat := 64 * 1024

  /** Python's `bytes.split(b"\n")`: one more part than there are newlines. */
  function Split(s: Bytes): (parts: seq<Bytes>)
    ensures parts != []
  {
    if s == [] then [[]]
    else if s[0] == NEWLINE then [[]] + Split(s[1..])
    else
      Extend(s[0], Split(s[1..]))
  }

  /** Puts a byte in front of the first part. */
  function Extend(b: Byte, parts: seq<Bytes>): seq<Bytes>
    requires parts != []
  {
    [[b] + parts[0]] + parts[1..]
  }

  predicate IsSpace(b: Byte) {
    b == 32 || 9 <= b <= 13
  }

  /** `not part.strip()`. */
  predicate Blank(part: Bytes) {
    forall i :: 0 <= i < |part| ==> IsSpace(part[i])
  }

  function NonBlank(parts: seq<Bytes>): seq<Bytes> {
    if parts == [] then []
    else if Blank(parts[0]) then NonBlank(parts[1..])
    else [parts[0]] + NonBlank(parts[1..])
  }

  function Last(s: seq<Bytes>, n: nat): seq<Bytes> {
    if |s| <= n then s else s[|s| - n..]
  }

  /** The specification. */
  function Tail(content: Bytes, maxLines: int): seq<Bytes> {
    if maxLines <= 0 then [] else Last(NonBlank(Split(content)), maxLines)
  }

  // ----- Splitting a concatenation -----

  lemma {:induction false} SplitLine(line: Bytes)
    requires NEWLINE !in line
    ensures Split(line) == [line]
  {
    if line != [] {
      SplitLine(line[1..]);
      assert line == [line[0]] + line[1..];
    }
  }

  lemma {:induction false} FirstPartIsLine(s: Bytes)
    ensures NEWLINE !in Split(s)[0]
  {
    if s != [] && s[0] != NEWLINE {
      FirstPartIsLine(s[1..]);
    }
  }

  lemma SplitCons(b: Byte, s: Bytes)
    ensures Split([b] + s) == if b == NEWLINE then [[]] + Split(s) else Extend(b, Split(s))
  {
    assert ([b] + s)[1..] == s;
  }

  lemma ConsConcat(b: Byte, p: seq<Bytes>, q: seq<Bytes>)
    requires p != []
    ensures Extend(b, p + q) == Extend(b, p) + q && [[]] + (p + q) == ([[]] + p) + q
  {
  }

  /** Prepending bytes changes only the first line of what follows. */
  lemma {:induction false} SplitConcat(a: Bytes, b: Bytes)
    ensures Split(a + b) == Split(a + Split(b)[0]) + Split(b)[1..]
  {
    hide Split, Extend;
    var first := Split(b)[0];
    if a == [] {
      FirstPartIsLine(b);
      SplitLine(first);
      assert a + b == b && a + first == first;
      assert Split(b) == [first] + Split(b)[1..];
    } else {
      SplitConcat(a[1..], b);
      assert a + b == [a[0]] + (a[1..] + b);
      assert a + first == [a[0]] + (a[1..] + first);
      SplitCons(a[0], a[1..] + b);
      SplitCons(a[0], a[1..] + first);
      ConsConcat(a[0], Split(a[1..] + first), Split(b)[1..]);
    }
  }

  lemma {:induction false} NonBlankConcat(a: seq<Bytes>, b: seq<Bytes>)
    ensures NonBlank(a + b) == NonBlank(a) + NonBlank(b)
  {
    if a == [] {
      assert a + b == b;
    } else {
      assert (a + b)[1..] == a[1..] + b;
      NonBlankConcat(a[1..], b);
    }
  }

  // ----- The loop -----

  /** `deque(maxlen=n).appendleft(x)`. */
  function AppendLeft(d: seq<Bytes>, x: Bytes, n: nat): seq<Bytes> {
    if |d| < n then [x] + d else if n == 0 then [] else [x] + d[..n - 1]
  }

  /** Walks the parts from the back, skipping the first one, until enough lines are collected. */
  method CollectBackwards(parts: seq<Bytes>, start: seq<Bytes>, maxLines: nat) returns (collected: seq<Bytes>)
    requires parts != [] && |start| < maxLines
    ensures collected == Last(NonBlank(parts[1..]) + start, maxLines)
  {
    collected := start;
    var i := |parts|;
    while i > 1
      invariant 1 <= i <= |parts| && |collected| < maxLines
      invariant collected == NonBlank(parts[i..]) + start
    {
      i := i - 1;
      assert parts[i..] == [parts[i]] + parts[i + 1..];
      if Blank(parts[i]) {
        continue;
      }
      collected := AppendLeft(collected, parts[i], maxLines);
      if |collected| >= maxLines {
        FullSuffix(parts, i, start, maxLines, collected);
        return;
      }
    }
  }

  /** Once enough lines are collected from the back, lines further ahead do not matter. */
  lemma FullSuffix(parts: seq<Bytes>, i: nat, start: seq<Bytes>, n: nat, collected: seq<Bytes>)
    requires 1 <= i <= |parts| && collected == NonBlank(parts[i..]) + start && |collected| == n
    ensures collected == Last(NonBlank(parts[1..]) + start, n)
  {
    NonBlankConcat(parts[1..i], parts[i..]);
    assert parts[1..] == parts[1..i] + parts[i..];
    var all := NonBlank(parts[1..]) + start;
    assert all == NonBlank(parts[1..i]) + collected;
  }

  /** Where the reader stands: everything from `pos` on is split, its first line still open. */
  ghost predicate ReadBack(content: Bytes, pos: nat, carry: Bytes, collected: seq<Bytes>, maxLines: nat) {
    && pos <= |content|
    && carry == Split(content[pos..])[0]
    && collected == Last(NonBlank(Split(content[pos..])[1..]), maxLines)
  }

  lemma ReadChunk(content: Bytes, from: nat, pos: nat, carry: Bytes, collected: seq<Bytes>, maxLines: nat)
    requires ReadBack(content, pos, carry, collected, maxLines) && from <= pos && |collected| < maxLines
    ensures var parts := Split(content[from..pos] + carry);
            ReadBack(content, from, parts[0], Last(NonBlank(parts[1..]) + collected, maxLines), maxLines)
  {
    hide Split, NonBlank;
    var parts, after := Split(content[from..pos] + carry), Split(content[pos..]);
    SplitConcat(content[from..pos], content[pos..]);
    assert content[from..pos] + content[pos..] == content[from..];
    var all := Split(content[from..]);
    assert all == parts + after[1..];
    assert all[0] == parts[0] && all[1..] == parts[1..] + after[1..];
    NonBlankConcat(parts[1..], after[1..]);
  }

  /** Enough lines: what lies further ahead in the file does not matter. */
  lemma FinishFull(content: Bytes, pos: nat, carry: Bytes, collected: seq<Bytes>, maxLines: nat)
    requires ReadBack(content, pos, carry, collected, maxLines) && |collected| >= maxLines
    ensures collected == Last(NonBlank(Split(content)), maxLines)
  {
    hide Split, NonBlank;
    var front, after := Split(content[..pos] + carry), Split(content[pos..])[1..];
    SplitConcat(content[..pos], content[pos..]);
    assert content[..pos] + content[pos..] == content;
    NonBlankConcat(front, after);
  }

  /** The whole file is read: only the first line is still open. */
  lemma FinishFile(content: Bytes, carry: Bytes, collected: seq<Bytes>, maxLines: nat)
    requires ReadBack(content, 0, carry, collected, maxLines) && |collected| < maxLines
    ensures Last(NonBlank(Split(content)), maxLines) == if Blank(carry) then collected else [carry] + collected
  {
    hide Split;
    assert content[0..] == content;
    assert Split(content) == [carry] + Split(content)[1..];
    NonBlankConcat([carry], Split(content)[1..]);
    assert NonBlank([carry]) == if Blank(carry) then [] else [carry];
  }

  lemma StartRead(content: Bytes, maxLines: nat)
    ensures ReadBack(content, |content|, [], [], maxLines)
    ensures content == [] ==> Last(NonBlank(Split(content)), maxLines) == []
  {
    assert content[|content|..] == [];
    assert Split([]) == [[]];
    assert NonBlank([[]]) == [];
  }

  /** Reads chunks from the end until enough lines are collected or the file is exhausted. */
  method ReadChunks(content: Bytes, maxLines: nat, chunkSize: nat)
    returns (pos: nat, carry: Bytes, collected: seq<Bytes>)
    requires chunkSize > 0
    ensures ReadBack(content, pos, carry, collected, maxLines)
    ensures pos == 0 || |collected| >= maxLines
  {
    hide Split, NonBlank, Last, ReadBack;
    collected, pos, carry := [], |content|, [];
    StartRead(content, maxLines);
    while pos > 0 && |collected| < maxLines
      invariant pos <= |content| && ReadBack(content, pos, carry, collected, maxLines)
      decreases pos
    {
      var readLen := if chunkSize < pos then chunkSize else pos;
      var from := pos - readLen;
      var chunk := content[from..pos] + carry;
      var parts := Split(chunk);
      ReadChunk(content, from, pos, carry, collected, maxLines);
      pos := from;
      carry := parts[0];
      collected := CollectBackwards(parts, collected, maxLines);
    }
  }

  /** The reader, for any chunk size. `file` is None where the path is not a regular file. */
  method ReadTail(file: Option<Bytes>, maxLines: int, chunkSize: nat) returns (lines: seq<Bytes>)
    requires chunkSize > 0
    ensures lines == if file.Some? then Tail(file.value, maxLines) else []
  {
    hide Split, NonBlank, Last, ReadBack, Blank;
    if maxLines <= 0 || file.None? {
      return [];
    }
    StartRead(file.value, maxLines);
    if |file.value| == 0 {
      return [];
    }
    var pos, carry, collected := ReadChunks(file.value, maxLines, chunkSize);
    if |collected| >= maxLines {
      FinishFull(file.value, pos, carry, collected, maxLines);
    } else {
      FinishFile(file.value, carry, collected, maxLines);
    }
    if |collected| < maxLines && !Blank(carry) {
      collected := AppendLeft(collected, carry, maxLines);
    }
    lines := collected;
  }

  method IterJsonlTail(file: Option<Bytes>, maxLines: int) returns (lines: seq<Bytes>)
    ensures lines == if file.Some? then Tail(file.value, maxLines) else []
  {
    lines := ReadTail(file, maxLines, CHUNK_SIZE);
  }

  /** What the specification promises a caller: few enough lines, none blank, each a line of the file. */
  lemma TailLines(content: Bytes, maxLines: int)
    ensures |Tail(content, maxLines)| <= if maxLines <= 0 then 0 else maxLines
    ensures forall line :: line in Tail(content, maxLines) ==> !Blank(line) && line in Split(content)
  {
    if maxLines > 0 {
      NonBlankMembers(Split(content));
    }
  }

  lemma {:induction false} NonBlankMembers(parts: seq<Bytes>)
    ensures forall p :: p in NonBlank(parts) <==> p in parts && !Blank(p)
  {
    if parts != [] {
      NonBlankMembers(parts[1..]);
      assert parts == [parts[0]] + parts[1..];
    }
  }

  function Join(parts: seq<Bytes>): Bytes {
    if parts == [] then [] else if |parts| == 1 then parts[0] else parts[0] + [NEWLINE] + Join(parts[1..])
  }

  /** Splitting loses nothing: joining the parts with newlines gives the content back. */
  lemma {:induction false} JoinSplit(s: Bytes)
    ensures Join(Split(s)) == s
  {
    if s != [] {
      JoinSplit(s[1..]);
      var rest := Split(s[1..]);
      assert s == [s[0]] + s[1..];
      if s[0] == NEWLINE {
        assert Split(s)[1..] == rest;
      } else if |rest| > 1 {
        assert Split(s)[1..] == rest[1..];
      }
    }
  }

  /** No part contains a newline. */
  lemma {:induction false} PartsHaveNoNewline(s: Bytes)
    ensures forall part :: part in Split(s) ==> NEWLINE !in part
  {
    if s != [] {
      PartsHaveNoNewline(s[1..]);
      var rest := Split(s[1..]);
      assert rest[0] in rest;
      forall part | part in Split(s)
        ensures NEWLINE !in part
      {
        assert part in rest || part == [] || part == [s[0]] + rest[0];
      }
    }
  }

  /** Some byte of the part is not ASCII white space. */
  ghost predicate HasInk(part: Bytes) {
    exists i :: 0 <= i < |part| && part[i] !in {9, 10, 11, 12, 13, 32}
  }

  ghost predicate Ascending(positions: seq<nat>, n: nat) {
    (forall i :: 0 <= i < |positions| ==> positions[i] < n) && forall i, j :: 0 <= i < j < |positions| ==> positions[i] < positions[j]
  }

  function Shifted(positions: seq<nat>): (r: seq<nat>)
    ensures |r| == |positions| && forall i :: 0 <= i < |r| ==> r[i] == positions[i] + 1
  {
    seq(|positions|, i requires 0 <= i < |positions| => positions[i] + 1)
  }

  /** `positions` are where the kept parts stand. */
  ghost predicate Locates(positions: seq<nat>, parts: seq<Bytes>, kept: seq<Bytes>) {
    && |positions| == |kept| && Ascending(positions, |parts|)
    && (forall i :: 0 <= i < |positions| ==> kept[i] == parts[positions[i]])
    && (forall k: nat :: k < |parts| ==> (k in positions <==> HasInk(parts[k])))
  }

  lemma {:induction false} NonBlankPositions(parts: seq<Bytes>) returns (positions: seq<nat>)
    ensures Locates(positions, parts, NonBlank(parts))
  {
    if parts == [] {
      positions := [];
    } else {
      hide Locates, Blank, HasInk;
      var rest := NonBlankPositions(parts[1..]);
      assert parts == [parts[0]] + parts[1..];
      BlankMeans(parts[0]);
      if Blank(parts[0]) {
        positions := Shifted(rest);
        SkipFirst(rest, parts[0], parts[1..], NonBlank(parts[1..]));
      } else {
        positions := [0] + Shifted(rest);
        KeepFirst(rest, parts[0], parts[1..], NonBlank(parts[1..]));
      }
    }
  }

  lemma SkipFirst(rest: seq<nat>, part: Bytes, parts: seq<Bytes>, kept: seq<Bytes>)
    requires Locates(rest, parts, kept) && !HasInk(part)
    ensures Locates(Shifted(rest), [part] + parts, kept)
  {
    hide HasInk;
    forall k: nat | k < |parts| + 1
      ensures k in Shifted(rest) <==> HasInk(([part] + parts)[k])
    {
      if k > 0 {
        ShiftedHas(rest, k);
      } else {
        assert 0 !in Shifted(rest);
      }
    }
  }

  lemma KeepFirst(rest: seq<nat>, part: Bytes, parts: seq<Bytes>, kept: seq<Bytes>)
    requires Locates(rest, parts, kept) && HasInk(part)
    ensures Locates([0] + Shifted(rest), [part] + parts, [part] + kept)
  {
    hide HasInk;
    var positions := [0] + Shifted(rest);
    forall k: nat | k < |parts| + 1
      ensures k in positions <==> HasInk(([part] + parts)[k])
    {
      assert k in positions <==> k == 0 || k in Shifted(rest);
      if k > 0 {
        ShiftedHas(rest, k);
      }
    }
  }

  lemma ShiftedHas(positions: seq<nat>, k: nat)
    requires k > 0
    ensures k in Shifted(positions) <==> k - 1 in positions
  {
    if k - 1 in positions {
      var i :| 0 <= i < |positions| && positions[i] == k - 1;
      assert Shifted(positions)[i] == k;
    }
  }

  lemma BlankMeans(part: Bytes)
    ensures Blank(part) <==> !HasInk(part)
  {
  }

  /**
   The result, by position in the split content: parts with ink, in file order, none of them skipped from the
   first one on, and none before it unless the limit is used up.
   */
  lemma TailLaw(content: Bytes, maxLines: int) returns (positions: seq<nat>)
    ensures var parts, tail := Split(content), Tail(content, maxLines);
            && |positions| == |tail| <= (if maxLines > 0 then maxLines else 0) && Ascending(positions, |parts|)
            && (forall i :: 0 <= i < |tail| ==> tail[i] == parts[positions[i]] && HasInk(tail[i]))
            && (maxLines > 0 ==> forall k: nat :: k < |parts| && HasInk(parts[k]) ==>
                  k in positions || (|tail| == maxLines && k < positions[0]))
  {
    hide HasInk, NonBlank, Split, Locates;
    if maxLines <= 0 {
      positions := [];
    } else {
      var all := NonBlankPositions(Split(content));
      LastLocated(all, Split(content), NonBlank(Split(content)), maxLines);
      positions := all[if |all| <= maxLines then 0 else |all| - maxLines..];
    }
  }

  lemma LastLocated(all: seq<nat>, parts: seq<Bytes>, kept: seq<Bytes>, n: nat)
    requires Locates(all, parts, kept) && n > 0
    ensures var positions, tail := all[if |all| <= n then 0 else |all| - n..], Last(kept, n);
            && |positions| == |tail| <= n && Ascending(positions, |parts|)
            && (forall i :: 0 <= i < |tail| ==> tail[i] == parts[positions[i]] && HasInk(tail[i]))
            && (forall k: nat :: k < |parts| && HasInk(parts[k]) ==> k in positions || (|tail| == n && k < positions[0]))
  {
    hide HasInk, Ascending;
    var from := if |all| <= n then 0 else |all| - n;
    var positions := all[from..];
    SuffixAscending(all, from, |parts|);
    forall k: nat | k < |parts| && HasInk(parts[k])
      ensures k in positions || (|positions| == n && k < positions[0])
    {
      NotSkipped(all, from, |parts|, k);
    }
    forall i | 0 <= i < |positions|
      ensures positions[i] < |parts| && HasInk(parts[positions[i]])
    {
      InBounds(all, |parts|, from + i);
      assert all[from + i] in all;
    }
  }

  lemma SuffixAscending(all: seq<nat>, from: nat, n: nat)
    requires Ascending(all, n) && from <= |all|
    ensures Ascending(all[from..], n)
  {
  }

  lemma InBounds(all: seq<nat>, n: nat, i: nat)
    requires Ascending(all, n) && i < |all|
    ensures all[i] < n
  {
  }

  lemma NotSkipped(all: seq<nat>, from: nat, n: nat, k: nat)
    requires Ascending(all, n) && k in all && from <= |all|
    ensures k in all[from..] || (from > 0 && (from < |all| ==> k < all[from]))
  {
    var i :| 0 <= i < |all| && all[i] == k;
    if i >= from {
      assert all[from..][i - from] == k;
    }
  }
}
