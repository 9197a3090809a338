/** Cutting the text of a document, page by page, into chunks of bounded length,
    at a space where there is one. */
module TextChunks {

  /** The last position of `c` among the first `n` characters, or -1. */
  function LastPosition(s: string, c: char, n: nat): (i: int)
    requires n <= |s|
    ensures -1 <= i < n
    ensures i >= 0 ==> s[i] == c
    ensures forall j :: i < j < n ==> s[j] != c
  {
    if n == 0 then -1 else if s[n - 1] == c then n - 1 else LastPosition(s, c, n - 1)
  }

  /** Slicing that stops at the end of the string. */
  function From(s: string, lo: nat): (r: string)
    ensures |r| == if lo <= |s| then |s| - lo else 0
  {
    if lo <= |s| then s[lo..] else ""
  }

  function Between(s: string, lo: nat, hi: nat): string
    requires lo <= hi
  {
    if hi <= |s| then s[lo..hi] else From(s, lo)
  }

  /** Where a text of at least `size` characters is cut: at the last space of its
      first `size` characters, else after them. */
  function CutAt(curr: string, size: nat): (k: nat)
    requires size <= |curr|
    ensures k <= size && (k < size ==> curr[k] == ' ')
    ensures forall j :: k < j < size ==> curr[j] != ' '
    ensures k == size ==> forall j :: 0 <= j < size ==> curr[j] != ' '
  {
    var k := LastPosition(curr, ' ', size);
    if k == -1 then size else k
  }

  /** The chunks cut off a text. */
  function Pieces(curr: string, size: nat): seq<string>
    requires size > 0
    decreases |curr|
  {
    if |curr| < size then []
    else
      var k := CutAt(curr, size);
      [curr[..k]] + Pieces(From(curr, k + 1), size)
  }

  /** What is left of a text after cutting. */
  function Left(curr: string, size: nat): (r: string)
    requires size > 0
    ensures |r| < size
    decreases |curr|
  {
    if |curr| < size then curr else Left(From(curr, CutAt(curr, size) + 1), size)
  }

  function WithRest(chunks: seq<string>, rest: string): seq<string> {
    if rest == "" then chunks else chunks + [rest]
  }

  /** All the chunks of one text. */
  function Chunks(text: string, size: nat): seq<string>
    requires size > 0
  {
    WithRest(Pieces(text, size), Left(text, size))
  }

  /** The chunks when the text arrives in pages, `curr` being left from earlier ones. */
  function PageChunks(curr: string, pages: seq<string>, size: nat): seq<string>
    requires size > 0
    decreases |pages|
  {
    if pages == [] then WithRest([], curr)
    else
      Pieces(curr + pages[0], size) + PageChunks(Left(curr + pages[0], size), pages[1..], size)
  }

  // ------------------------------------------------------------------ the loop

  /** The inner loop: cuts chunks off while the text is long enough.  What is kept
      as overlap is joined with the rest again, so it makes no difference. */
  method CutChunks(text: string, chunkSize: nat, overlapSize: nat) returns (chunks: seq<string>, currChunk: string)
    requires chunkSize > 0
    ensures chunks == Pieces(text, chunkSize) && currChunk == Left(text, chunkSize)
  {
    hide Pieces, Left, Between, From;
    currChunk, chunks := text, [];
    while |currChunk| >= chunkSize
      invariant Pieces(text, chunkSize) == chunks + Pieces(currChunk, chunkSize)
      invariant Left(text, chunkSize) == Left(currChunk, chunkSize)
      decreases |currChunk|
    {
      CutStep(currChunk, chunkSize, chunks);
      var splitIdx := LastPosition(currChunk, ' ', chunkSize);
      if splitIdx == -1 {
        splitIdx := chunkSize;
      }
      var actualChunk := currChunk[..splitIdx];
      chunks := chunks + [actualChunk];
      var overlap := Between(currChunk, splitIdx + 1, splitIdx + 1 + overlapSize);
      OverlapRejoined(currChunk, splitIdx + 1, overlapSize);
      currChunk := overlap + From(currChunk, splitIdx + 1 + overlapSize);
    }
    CutShort(currChunk, chunkSize);
  }

  /** One chunk more. */
  lemma CutStep(curr: string, size: nat, before: seq<string>)
    requires 0 < size <= |curr|
    ensures var k := CutAt(curr, size);
      && before + Pieces(curr, size) == before + [curr[..k]] + Pieces(From(curr, k + 1), size)
      && Left(curr, size) == Left(From(curr, k + 1), size)
  {
  }

  lemma OverlapRejoined(s: string, lo: nat, overlapSize: nat)
    ensures Between(s, lo, lo + overlapSize) + From(s, lo + overlapSize) == From(s, lo)
  {
  }

  /** The chunking loop over the pages. */
  method ChunkPages(pages: seq<string>, chunkSize: nat, overlapSize: nat) returns (allTextChunks: seq<string>)
    requires chunkSize > 0
    ensures allTextChunks == PageChunks("", pages, chunkSize)
  {
    hide Pieces, Left;
    allTextChunks := [];
    var currChunk := "";
    assert pages[0..] == pages;
    for i := 0 to |pages|
      invariant |currChunk| < chunkSize
      invariant PageChunks("", pages, chunkSize) == allTextChunks + PageChunks(currChunk, pages[i..], chunkSize)
    {
      var pageText := pages[i];
      assert pages[i..][1..] == pages[i + 1..];
      if pageText != "" {
        currChunk := currChunk + pageText;
        var chunks, rest := CutChunks(currChunk, chunkSize, overlapSize);
        allTextChunks := allTextChunks + chunks;
        currChunk := rest;
      } else {
        assert currChunk + pageText == currChunk;
        CutShort(currChunk, chunkSize);
      }
    }
    if currChunk != "" {
      allTextChunks := allTextChunks + [currChunk];
    }
  }

  lemma CutShort(curr: string, size: nat)
    requires |curr| < size
    ensures Pieces(curr, size) == [] && Left(curr, size) == curr
  {
  }

  // --------------------------------------------------------------- properties

  lemma {:induction false} CutBounded(curr: string, size: nat)
    requires size > 0
    ensures forall i :: 0 <= i < |Pieces(curr, size)| ==> |Pieces(curr, size)[i]| <= size
    decreases |curr|
  {
    if |curr| >= size {
      CutBounded(From(curr, CutAt(curr, size) + 1), size);
    }
  }

  /** No chunk is longer than the chunk size, whatever the pages. */
  lemma {:induction false} ChunksBounded(curr: string, pages: seq<string>, size: nat)
    requires size > 0 && |curr| < size
    ensures forall i :: 0 <= i < |PageChunks(curr, pages, size)| ==> |PageChunks(curr, pages, size)[i]| <= size
    decreases |pages|
  {
    if pages != [] {
      CutBounded(curr + pages[0], size);
      ChunksBounded(Left(curr + pages[0], size), pages[1..], size);
    }
  }

  function Join(parts: seq<string>): string {
    if parts == [] then ""
    else if |parts| == 1 then parts[0]
    else parts[0] + " " + Join(parts[1..])
  }

  function Concat(pages: seq<string>): string {
    if pages == [] then "" else pages[0] + Concat(pages[1..])
  }

  predicate Spaces(s: string) {
    forall i :: 0 <= i < |s| ==> s[i] == ' '
  }

  /** Every cut falls on a space that more text follows, or else at the end of a
      page, where only spaces may follow that fill whole chunks. */
  predicate LosesNothing(curr: string, pages: seq<string>, size: nat)
    requires size > 0
    decreases |pages|, |curr|
  {
    if |curr| < size then
      pages != [] ==> LosesNothing(curr + pages[0], pages[1..], size)
    else
      var k, later := CutAt(curr, size), Concat(pages);
      if k == |curr| then Spaces(later) && |later| % size == 0
      else curr[k] == ' ' && curr[k + 1..] + later != "" && LosesNothing(curr[k + 1..], pages, size)
  }

  lemma ChunksStep(text: string, size: nat)
    requires size > 0 && |text| >= size
    ensures Chunks(text, size) == [text[..CutAt(text, size)]] + Chunks(From(text, CutAt(text, size) + 1), size)
  {
  }

  lemma ChunksEmpty(text: string, size: nat)
    requires size > 0
    ensures Chunks(text, size) == [] <==> text == ""
  {
  }

  /** What is cut when `curr` is not yet cut itself. */
  function AllChunks(curr: string, pages: seq<string>, size: nat): seq<string>
    requires size > 0
  {
    Pieces(curr, size) + PageChunks(Left(curr, size), pages, size)
  }

  lemma AllChunksStep(curr: string, pages: seq<string>, size: nat)
    requires 0 < size <= |curr|
    ensures AllChunks(curr, pages, size) ==
      [curr[..CutAt(curr, size)]] + AllChunks(From(curr, CutAt(curr, size) + 1), pages, size)
  {
  }

  lemma AllChunksShort(curr: string, pages: seq<string>, size: nat)
    requires |curr| < size
    ensures AllChunks(curr, pages, size) == PageChunks(curr, pages, size)
  {
    CutShort(curr, size);
    hide Pieces, Left, PageChunks;
  }

  lemma PageStep(curr: string, pages: seq<string>, size: nat)
    requires size > 0 && pages != []
    ensures var now := curr + pages[0];
      && PageChunks(curr, pages, size) == Pieces(now, size) + PageChunks(Left(now, size), pages[1..], size)
      && curr + Concat(pages) == now + Concat(pages[1..])
  {
    hide Pieces, Left;
  }

  lemma AllChunksPage(curr: string, pages: seq<string>, size: nat)
    requires |curr| < size && pages != []
    ensures AllChunks(curr, pages, size) == AllChunks(curr + pages[0], pages[1..], size)
    ensures curr + Concat(pages) == curr + pages[0] + Concat(pages[1..])
  {
    hide Pieces, Left, PageChunks, Concat;
    AllChunksShort(curr, pages, size);
    PageStep(curr, pages, size);
  }

  lemma AllChunksEnd(curr: string, size: nat)
    requires |curr| < size
    ensures AllChunks(curr, [], size) == (if curr == "" then [] else [curr]) && curr + Concat([]) == curr
  {
    AllChunksShort(curr, [], size);
  }

  lemma {:induction false} AllChunksEmpty(curr: string, pages: seq<string>, size: nat)
    requires size > 0
    ensures AllChunks(curr, pages, size) == [] <==> curr + Concat(pages) == ""
    decreases |pages|, |curr|
  {
    hide AllChunks, Concat, CutAt;
    if |curr| >= size {
      AllChunksStep(curr, pages, size);
    } else if pages != [] {
      AllChunksPage(curr, pages, size);
      AllChunksEmpty(curr + pages[0], pages[1..], size);
    } else {
      AllChunksEnd(curr, size);
    }
  }

  lemma JoinOne(part: string)
    ensures Join([part]) == part && Join([]) == ""
  {
  }

  lemma JoinCons(first: string, tail: seq<string>)
    requires tail != []
    ensures Join([first] + tail) == first + " " + Join(tail)
  {
    assert ([first] + tail)[1..] == tail;
  }

  lemma JoinStep(text: string, k: nat, rest: string, tail: seq<string>)
    requires k < |text| && rest == text[k + 1..] && tail != []
    ensures Join([text[..k]] + tail) == text <==> text[k] == ' ' && Join(tail) == rest
  {
    var joined := text[..k] + " " + Join(tail);
    assert ([text[..k]] + tail)[1..] == tail;
    assert Join([text[..k]] + tail) == joined;
    assert text == text[..k] + [text[k]] + rest;
    if joined == text {
      assert joined[k] == ' ' && joined[k + 1..] == Join(tail);
    }
  }

  /** At most one character is missing, and then only the last one; up to it
      characters may have been replaced by spaces. */
  predicate Nearly(joined: string, text: string) {
    && |joined| >= |text| - 1
    && (|joined| == |text| - 1 ==> forall i :: 0 <= i < |joined| ==> joined[i] == text[i] || joined[i] == ' ')
  }

  lemma {:induction false} JoinNearly(curr: string, pages: seq<string>, size: nat)
    requires size > 0 && curr + Concat(pages) != ""
    ensures Nearly(Join(AllChunks(curr, pages, size)), curr + Concat(pages))
    decreases |pages|, |curr|
  {
    hide *;
    if |curr| >= size {
      var k := CutAt(curr, size);
      var rest := From(curr, k + 1);
      AllChunksStep(curr, pages, size);
      AllChunksEmpty(rest, pages, size);
      if rest + Concat(pages) != "" {
        JoinNearly(rest, pages, size);
        JoinCons(curr[..k], AllChunks(rest, pages, size));
        NearlyStep(curr, Concat(pages), k, Join(AllChunks(rest, pages, size)));
      } else {
        NearlyEnd(curr, k, Concat(pages));
        assert [curr[..k]] + AllChunks(rest, pages, size) == [curr[..k]];
      }
    } else if pages != [] {
      AllChunksPage(curr, pages, size);
      JoinNearly(curr + pages[0], pages[1..], size);
    } else {
      AllChunksEnd(curr, size);
      NearlyEnd(curr, |curr|, "");
      assert curr[..|curr|] == curr;
    }
  }

  lemma NearlyStep(curr: string, later: string, k: nat, joined: string)
    requires k <= |curr| && Nearly(joined, From(curr, k + 1) + later)
    ensures Nearly(curr[..k] + " " + joined, curr + later)
  {
  }

  lemma NearlyEnd(curr: string, k: nat, later: string)
    requires k <= |curr| && From(curr, k + 1) + later == ""
    ensures Nearly(Join([curr[..k]]), curr + later)
  {
  }

  predicate HasSpace(text: string, i: nat, n: nat)
    requires i + n <= |text|
  {
    exists j :: i <= j < i + n && text[j] == ' '
  }

  lemma SomeSpace(text: string, i: nat, n: nat) returns (j: nat)
    requires i + n <= |text| && HasSpace(text, i, n)
    ensures i <= j < i + n && text[j] == ' '
  {
    j :| i <= j < i + n && text[j] == ' ';
  }

  /** Any `n` consecutive characters include a space. */
  predicate SpaceEvery(text: string, n: nat) {
    forall i :: 0 <= i <= |text| - n ==> HasSpace(text, i, n)
  }

  /** Windows of a part of the text are windows of the text. */
  lemma SpaceEveryPart(text: string, lo: nat, hi: nat, n: nat)
    requires SpaceEvery(text, n) && lo <= hi <= |text|
    ensures SpaceEvery(text[lo..hi], n)
  {
    var part := text[lo..hi];
    forall i | 0 <= i <= |part| - n ensures HasSpace(part, i, n) {
      assert HasSpace(text, lo + i, n);
      var j := SomeSpace(text, lo + i, n);
      assert part[j - lo] == ' ';
    }
  }

  lemma LosesNothingCut(curr: string, pages: seq<string>, size: nat)
    requires 0 < size <= |curr|
    ensures var k, later := CutAt(curr, size), Concat(pages);
      LosesNothing(curr, pages, size) <==>
        if k == |curr| then Spaces(later) && |later| % size == 0
        else curr[k] == ' ' && From(curr, k + 1) + later != "" && LosesNothing(From(curr, k + 1), pages, size)
  {
    hide CutAt, Spaces;
  }

  lemma LosesNothingPage(curr: string, pages: seq<string>, size: nat)
    requires |curr| < size
    ensures LosesNothing(curr, pages, size) <==> (pages != [] ==> LosesNothing(curr + pages[0], pages[1..], size))
  {
  }

  lemma SpaceEveryAround(text: string, k: nat, n: nat)
    requires k < |text| && text[k] == ' ' && k < n
    ensures SpaceEvery(text, n) <==> SpaceEvery(text[k + 1..], n)
  {
    var rest := text[k + 1..];
    if SpaceEvery(text, n) {
      SpaceEveryPart(text, k + 1, |text|, n);
      assert text[k + 1..|text|] == rest;
    }
    if SpaceEvery(rest, n) {
      forall i | 0 <= i <= |text| - n ensures HasSpace(text, i, n) {
        if i > k {
          assert HasSpace(rest, i - k - 1, n);
          var j := SomeSpace(rest, i - k - 1, n);
          assert text[k + 1 + j] == ' ';
        }
      }
    }
  }

  lemma WordsCut(text: string, size: nat)
    requires 0 < size <= |text| && text[|text| - 1] != ' '
    ensures var k := CutAt(text, size);
      LosesNothing(text, [], size) <==> k == |text| || (text[k] == ' ' && LosesNothing(From(text, k + 1), [], size))
  {
    hide LosesNothing, CutAt;
    LosesNothingCut(text, [], size);
  }

  lemma SpaceEveryCut(text: string, size: nat)
    requires 0 < size <= |text|
    ensures var k := CutAt(text, size);
      SpaceEvery(text, size + 1) <==> k == |text| || (text[k] == ' ' && SpaceEvery(From(text, k + 1), size + 1))
  {
    hide SpaceEvery, CutAt, HasSpace;
    var k := CutAt(text, size);
    if k == |text| {
      SpaceEveryShort(text, size + 1);
    } else if text[k] == ' ' {
      SpaceEveryAround(text, k, size + 1);
    } else {
      LongWord(text, size);
    }
  }

  lemma LongWord(text: string, size: nat)
    requires size <= |text| && CutAt(text, size) < |text| && text[CutAt(text, size)] != ' '
    ensures !SpaceEvery(text, size + 1)
  {
    assert !HasSpace(text, 0, size + 1);
  }

  lemma SpaceEveryShort(text: string, n: nat)
    requires |text| < n
    ensures SpaceEvery(text, n)
  {
  }

  /** For one page that does not end in a space: nothing is lost exactly when no
      word is longer than the chunk size. */
  lemma {:induction false} LosesNothingWords(text: string, size: nat)
    requires size > 0 && (text != "" ==> text[|text| - 1] != ' ')
    ensures LosesNothing(text, [], size) <==> SpaceEvery(text, size + 1)
    decreases |text|
  {
    hide LosesNothing, SpaceEvery, CutAt;
    if |text| < size {
      LosesNothingPage(text, [], size);
      SpaceEveryShort(text, size + 1);
    } else {
      WordsCut(text, size);
      SpaceEveryCut(text, size);
      if CutAt(text, size) < |text| {
        LosesNothingWords(From(text, CutAt(text, size) + 1), size);
      }
    }
  }

  /** Cutting a text whose words are all shorter than the chunk size can be
      interrupted anywhere. */
  lemma {:induction false} CutAppend(a: string, b: string, size: nat)
    requires size > 0 && SpaceEvery(a, size)
    ensures Pieces(a + b, size) == Pieces(a, size) + Pieces(Left(a, size) + b, size)
    ensures Left(a + b, size) == Left(Left(a, size) + b, size)
    decreases |a|
  {
    hide *;
    if |a| < size {
      CutShort(a, size);
    } else {
      var k := FirstCut(a, b, size);
      CutAppend(a[k + 1..], b, size);
      FirstPiece(a + b, size);
      FirstPiece(a, size);
      Prepend(a[..k], Pieces(a[k + 1..], size), Pieces(Left(a[k + 1..], size) + b, size));
    }
  }

  lemma FirstPiece(curr: string, size: nat)
    requires 0 < size <= |curr|
    ensures var k := CutAt(curr, size);
      Pieces(curr, size) == [curr[..k]] + Pieces(From(curr, k + 1), size)
        && Left(curr, size) == Left(From(curr, k + 1), size)
  {
  }

  lemma Prepend(first: string, some: seq<string>, more: seq<string>)
    ensures [first] + (some + more) == [first] + some + more
  {
  }

  /** The first cut of a text with short words falls on a space, whatever follows. */
  lemma FirstCut(a: string, b: string, size: nat) returns (k: nat)
    requires 0 < size <= |a| && SpaceEvery(a, size)
    ensures k == CutAt(a, size) == CutAt(a + b, size) && k < |a| && a[k] == ' '
    ensures (a + b)[..k] == a[..k]
    ensures From(a, k + 1) == a[k + 1..] && From(a + b, k + 1) == a[k + 1..] + b
    ensures SpaceEvery(a[k + 1..], size)
  {
    k := CutAt(a, size);
    var j := SomeSpace(a, 0, size);
    SameCut(a, b, size);
    SpaceEveryPart(a, k + 1, |a|, size);
    assert a[k + 1..|a|] == a[k + 1..];
  }

  lemma SameCut(a: string, b: string, size: nat)
    requires 0 < size <= |a|
    ensures CutAt(a + b, size) == CutAt(a, size)
  {
    assert forall j :: 0 <= j < size ==> (a + b)[j] == a[j];
  }

  lemma {:induction false} CutRestSpaces(a: string, b: string, size: nat)
    requires size > 0 && SpaceEvery(a + b, size)
    ensures SpaceEvery(Left(a, size) + b, size)
    decreases |a|
  {
    hide Left, SpaceEvery, HasSpace, CutAt;
    if |a| >= size {
      var k := CutAt(a, size);
      var lo := if k + 1 <= |a| then k + 1 else |a|;
      FirstPiece(a, size);
      assert (a + b)[lo..|a + b|] == From(a, k + 1) + b;
      SpaceEveryPart(a + b, lo, |a + b|, size);
      CutRestSpaces(From(a, k + 1), b, size);
    } else {
      CutShort(a, size);
    }
  }

  lemma ChunksAppend(a: string, b: string, size: nat)
    requires size > 0 && SpaceEvery(a, size)
    ensures Chunks(a + b, size) == Pieces(a, size) + Chunks(Left(a, size) + b, size)
  {
    hide *;
    CutAppend(a, b, size);
    ChunksAre(a + b, size);
    ChunksAre(Left(a, size) + b, size);
    WithRestAppend(Pieces(a, size), Pieces(Left(a, size) + b, size), Left(Left(a, size) + b, size));
  }

  lemma ChunksAre(text: string, size: nat)
    requires size > 0
    ensures Chunks(text, size) == WithRest(Pieces(text, size), Left(text, size))
  {
  }

  lemma WithRestAppend(a: seq<string>, b: seq<string>, rest: string)
    ensures WithRest(a + b, rest) == a + WithRest(b, rest)
  {
  }

  /** The pages do not matter as long as every word is shorter than the chunk size. */
  lemma {:induction false} ShortWords(curr: string, pages: seq<string>, size: nat)
    requires |curr| < size && SpaceEvery(curr + Concat(pages), size)
    ensures PageChunks(curr, pages, size) == Chunks(curr + Concat(pages), size)
    decreases |pages|
  {
    if pages == [] {
      assert curr + Concat(pages) == curr;
      CutShort(curr, size);
    } else {
      var now, later := curr + pages[0], Concat(pages[1..]);
      assert curr + Concat(pages) == now + later;
      hide SpaceEvery, Pieces, Left, Concat, Chunks;
      SpaceEveryPart(now + later, 0, |now|, size);
      assert (now + later)[0..|now|] == now;
      ChunksAppend(now, later, size);
      CutRestSpaces(now, later, size);
      ShortWords(Left(now, size), pages[1..], size);
    }
  }

  /** A text that ends in a word of exactly the chunk size; all other words are
      shorter. */
  predicate FullWord(p: string, size: nat) {
    0 < size <= |p| && SpaceEvery(p[..|p| - 1], size) && !HasSpace(p, |p| - size, size)
  }

  /** Cutting up to a full word that some text follows. */
  lemma FullWordCut(p: string, x: string, size: nat) returns (k: nat)
    requires FullWord(p, size) && |p| > size
    ensures k == CutAt(p, size) == CutAt(p + x, size) && k < |p| - size
    ensures From(p, k + 1) == p[k + 1..] && From(p + x, k + 1) == p[k + 1..] + x && (p + x)[..k] == p[..k]
    ensures FullWord(p[k + 1..], size)
  {
    var core := p[..|p| - 1];
    assert HasSpace(core, 0, size);
    var j := SomeSpace(core, 0, size);
    assert p[j] == ' ';
    k := CutAt(p, size);
    SameCut(p, x, size);
    assert p[k] == ' ';
    var rest := p[k + 1..];
    SpaceEveryPart(core, k + 1, |core|, size);
    assert core[k + 1..|core|] == rest[..|rest| - 1];
    forall i | |rest| - size <= i < |rest| ensures rest[i] != ' ' {
      assert rest[i] == p[k + 1 + i];
    }
  }

  function Weight(parts: seq<string>): nat {
    if parts == [] then 0 else |parts[0]| + 1 + Weight(parts[1..])
  }

  lemma {:induction false} WeightAppend(a: seq<string>, b: seq<string>)
    ensures Weight(a + b) == Weight(a) + Weight(b)
  {
    if a == [] {
      assert a + b == b;
    } else {
      assert (a + b)[1..] == a[1..] + b;
      WeightAppend(a[1..], b);
    }
  }

  /** A full word is cut off whole, and the character after it is dropped if it
      has already arrived. */
  lemma {:induction false} FullWordPieces(p: string, x: string, size: nat)
    requires FullWord(p, size)
    ensures Pieces(p + x, size) == Pieces(p, size) + Pieces(From(x, 1), size)
    ensures Left(p + x, size) == Left(From(x, 1), size) && Left(p, size) == ""
    ensures Weight(Pieces(p, size)) == |p| + 1
    decreases |p|
  {
    FirstPiece(p, size);
    FirstPiece(p + x, size);
    if |p| == size {
      assert forall j :: 0 <= j < size ==> (p + x)[j] == p[j];
      assert CutAt(p, size) == CutAt(p + x, size) == size;
      assert From(p, size + 1) == "" && From(p + x, size + 1) == From(x, 1);
      assert p[..size] == p && (p + x)[..size] == p;
      CutShort("", size);
      assert Pieces(p, size) == [p];
    } else {
      hide *;
      var k := FullWordCut(p, x, size);
      FullWordPieces(p[k + 1..], x, size);
      Prepend(p[..k], Pieces(p[k + 1..], size), Pieces(From(x, 1), size));
      WeightCons(p[..k], Pieces(p[k + 1..], size));
    }
  }

  lemma WeightCons(first: string, rest: seq<string>)
    ensures Weight([first] + rest) == |first| + 1 + Weight(rest)
  {
    assert ([first] + rest)[1..] == rest;
  }

  lemma FullWordChunks(p: string, x: string, size: nat)
    requires FullWord(p, size)
    ensures Chunks(p + x, size) == Pieces(p, size) + Chunks(From(x, 1), size)
    ensures Left(p, size) == "" && Weight(Pieces(p, size)) == |p| + 1
  {
    hide *;
    FullWordPieces(p, x, size);
    FullWordSize(p, size);
    ChunksAre(p + x, size);
    ChunksAre(From(x, 1), size);
    WithRestAppend(Pieces(p, size), Pieces(From(x, 1), size), Left(From(x, 1), size));
  }

  lemma FullWordSize(p: string, size: nat)
    requires FullWord(p, size)
    ensures 0 < size <= |p|
  {
  }

  /** What is left of the text before the end of a full word. */
  lemma {:induction false} FullWordLeft(now: string, y: string, size: nat)
    requires FullWord(now + y, size) && y != ""
    ensures FullWord(Left(now, size) + y, size) && SpaceEvery(now, size)
    decreases |now|
  {
    var p := now + y;
    SpaceEveryPart(p[..|p| - 1], 0, |now|, size);
    assert p[..|p| - 1][0..|now|] == now;
    if |now| >= size {
      hide SpaceEvery, HasSpace, FullWord;
      var k := FirstCut(now, y, size);
      var k' := FullWordCut(p, "", size);
      assert p + "" == p && p[k + 1..] == now[k + 1..] + y;
      FirstPiece(now, size);
      FullWordLeft(now[k + 1..], y, size);
    }
  }

  lemma SpacesEverywhere(s: string, size: nat)
    requires Spaces(s) && size > 0
    ensures SpaceEvery(s, size)
  {
    forall i | 0 <= i <= |s| - size ensures HasSpace(s, i, size) {
      assert s[i] == ' ';
    }
  }

  /** The division between `now` and `later` lies before or after that between
      `p` and `sp`. */
  lemma SplitBefore(now: string, later: string, p: string, sp: string) returns (y: string)
    requires now + later == p + sp && |now| < |p|
    ensures y != "" && p == now + y && later == y + sp
  {
    y := p[|now|..];
    assert (now + later)[..|now|] == now && (p + sp)[..|now|] == p[..|now|];
    assert (now + later)[|now|..] == later && (p + sp)[|now|..] == y + sp;
  }

  lemma SplitAfter(now: string, later: string, p: string, sp: string) returns (x: string)
    requires now + later == p + sp && |now| >= |p|
    ensures now == p + x && sp == x + later
  {
    x := now[|p|..];
    assert (now + later)[..|p|] == now[..|p|] && (p + sp)[..|p|] == p;
    assert (now + later)[|p|..] == x + later && (p + sp)[|p|..] == sp;
  }

  lemma AfterFirst(x: string, later: string, sp: string)
    requires sp == x + later && Spaces(sp)
    ensures Spaces(From(x, 1) + later)
    ensures From(x, 1) + later == if x == "" then sp else From(sp, 1)
  {
    if x == "" {
      assert From(x, 1) == "" && "" + later == later;
    } else {
      assert sp[1..] == x[1..] + later;
    }
  }

  /** After a full word the pages divide spaces. */
  lemma FullWordLater(p: string, x: string, later: string, sp: string, pages: seq<string>, size: nat)
    requires FullWord(p, size) && Spaces(sp) && sp == x + later && later == Concat(pages)
    requires Chunks(sp, size) == Chunks(From(sp, 1), size)
    ensures Pieces(p + x, size) + PageChunks(Left(p + x, size), pages, size) == Chunks(p + sp, size)
  {
    hide *;
    FullWordSize(p, size);
    FullWordPieces(p, x, size);
    FullWordChunks(p, sp, size);
    AfterFirst(x, later, sp);
    SpacesEverywhere(From(x, 1) + later, size);
    SpaceEveryPrefix(From(x, 1), later, size);
    CutRestSpaces(From(x, 1), later, size);
    ShortWords(Left(From(x, 1), size), pages, size);
    ChunksAppend(From(x, 1), later, size);
  }

  /** Dropping the first of the spaces after a full word changes nothing if they
      fill whole chunks. */
  lemma {:induction false} FullWordPages(curr: string, pages: seq<string>, p: string, sp: string, size: nat)
    requires FullWord(p, size) && Spaces(sp) && |curr| < size && curr + Concat(pages) == p + sp
    requires Chunks(sp, size) == Chunks(From(sp, 1), size)
    ensures PageChunks(curr, pages, size) == Chunks(p + sp, size)
    decreases |pages|
  {
    FullWordSize(p, size);
    assert pages == [] ==> |Concat(pages)| == 0;
    hide *;
    var now, later := curr + pages[0], Concat(pages[1..]);
    PageStep(curr, pages, size);
    if |now| < |p| {
      var y := SplitBefore(now, later, p, sp);
      FullWordLeft(now, y, size);
      assert Left(now, size) + later == Left(now, size) + y + sp;
      FullWordPages(Left(now, size), pages[1..], Left(now, size) + y, sp, size);
      ChunksAppend(now, later, size);
    } else {
      var x := SplitAfter(now, later, p, sp);
      FullWordLater(p, x, later, sp, pages[1..], size);
    }
  }

  lemma SpaceEveryPrefix(a: string, b: string, size: nat)
    requires SpaceEvery(a + b, size)
    ensures SpaceEvery(a, size)
  {
    SpaceEveryPart(a + b, 0, |a|, size);
    assert (a + b)[0..|a|] == a;
  }

  lemma SpacesStep(s: string, size: nat)
    requires Spaces(s) && 0 < size <= |s|
    ensures Chunks(s, size) == [s[..size - 1]] + Chunks(s[size..], size) && Left(s, size) == Left(s[size..], size)
    ensures Spaces(s[size..]) && |s[size..]| % size == |s| % size
  {
    assert CutAt(s, size) == size - 1 && From(s, size) == s[size..];
    hide *;
    ChunksStep(s, size);
    FirstPiece(s, size);
    SpacesRest(s, size);
  }

  lemma SpacesRest(s: string, size: nat)
    requires Spaces(s) && 0 < size <= |s|
    ensures Spaces(s[size..]) && |s[size..]| % size == |s| % size
  {
    SubtractOnce(|s|, size);
  }

  lemma SubtractOnce(n: nat, size: nat)
    requires 0 < size <= n
    ensures (n - size) % size == n % size
  {
    var q, q', r, r' := n / size, (n - size) / size, n % size, (n - size) % size;
    SmallMultiple(size, q - q' - 1, r' - r);
  }

  lemma SmallMultiple(size: int, d: int, x: int)
    requires x == size * d && -size < x < size
    ensures x == 0
  {
    if d > 0 {
      AtLeastOnce(size, d);
    } else if d < 0 {
      AtLeastOnce(size, -d);
    }
  }

  lemma AtLeastOnce(size: int, d: int)
    requires size > 0 && d > 0
    ensures size * d >= size
  {
  }

  /** Spaces that fill whole chunks, without the first one. */
  lemma {:induction false} SpacesShort(s: string, size: nat)
    requires Spaces(s) && size > 0 && |s| % size == 0 && (s == "" || size > 1)
    ensures Chunks(s, size) == Chunks(From(s, 1), size)
    decreases |s|
  {
    if s != "" {
      var rest, short := s[size..], s[1..];
      assert Spaces(short) && From(s, 1) == short && short[..size - 1] == s[..size - 1];
      assert |s| > size ==> From(rest, 1) == short[size..];
      hide *;
      SpacesStep(s, size);
      if |s| == size {
        ShortChunks(short, size);
        ShortChunks(rest, size);
        assert short[..size - 1] == short;
      } else {
        SpacesShort(rest, size);
        SpacesStep(short, size);
      }
    }
  }

  lemma ShortChunks(text: string, size: nat)
    requires |text| < size
    ensures Chunks(text, size) == (if text == "" then [] else [text]) && Left(text, size) == text
  {
    CutShort(text, size);
  }

  lemma {:induction false} SpacesLeft(s: string, size: nat)
    requires Spaces(s) && size > 0
    ensures |Left(s, size)| == |s| % size
    decreases |s|
  {
    hide *;
    if |s| >= size {
      SpacesStep(s, size);
      SpacesLeft(s[size..], size);
    } else {
      ShortChunks(s, size);
    }
  }

  /** Joining the chunks of a text with short words restores it, but for a space
      that ends the last chunk. */
  lemma {:induction false} ShortWordsJoin(text: string, size: nat)
    requires size > 0 && SpaceEvery(text, size) && text != ""
    ensures Join(Chunks(text, size)) + (if Left(text, size) == "" then " " else "") == text
    decreases |text|
  {
    hide *;
    if |text| < size {
      ShortChunks(text, size);
      JoinOne(text);
    } else {
      var k := FirstCut(text, "", size);
      var rest := text[k + 1..];
      ChunksStep(text, size);
      FirstPiece(text, size);
      assert text == text[..k] + " " + rest;
      if rest != "" {
        ChunksEmpty(rest, size);
        ShortWordsJoin(rest, size);
        JoinCons(text[..k], Chunks(rest, size));
      } else {
        ShortChunks(rest, size);
        JoinOne(text[..k]);
        assert [text[..k]] + [] == [text[..k]];
      }
    }
  }

  /** Only spaces that fill whole chunks may lose the first one unnoticed. */
  lemma OnlySpaces(s: string, size: nat)
    requires size > 0 && SpaceEvery(s, size) && s != "" && Chunks(s, size) == Chunks(s[1..], size)
    ensures Spaces(s) && |s| % size == 0 && size > 1
  {
    hide *;
    ChunksEmpty(s, size);
    ChunksEmpty(s[1..], size);
    SpaceEveryPart(s, 1, |s|, size);
    assert s[1..|s|] == s[1..];
    ShortWordsJoin(s, size);
    ShortWordsJoin(s[1..], size);
    assert s[1..] + " " == s;
    AllSpaces(s);
    SpacesLeft(s, size);
  }

  lemma AllSpaces(s: string)
    requires s != "" && s[1..] + " " == s
    ensures Spaces(s)
  {
    var i := |s| - 1;
    while i > 0
      invariant 0 <= i < |s| && forall j :: i <= j < |s| ==> s[j] == ' '
    {
      assert (s[1..] + " ")[i - 1] == s[i];
      i := i - 1;
    }
  }

  lemma {:induction false} WeightChunks(text: string, size: nat)
    requires size > 0
    ensures |text| <= Weight(Chunks(text, size)) <= |text| + 1
    decreases |text|
  {
    if |text| < size {
      CutShort(text, size);
    } else {
      var k := CutAt(text, size);
      ChunksStep(text, size);
      WeightChunks(From(text, k + 1), size);
      WeightCons(text[..k], Chunks(From(text, k + 1), size));
      if k == |text| {
        ChunksEmpty("", size);
      }
    }
  }

  /** The text up to the end of the first word that is not shorter than the chunk size. */
  lemma FirstFullWord(text: string, size: nat) returns (n: nat)
    requires size > 0 && !SpaceEvery(text, size)
    ensures n <= |text| && FullWord(text[..n], size)
  {
    var i: nat :| i <= |text| - size && !HasSpace(text, i, size);
    n := FullWordBy(text, i, size);
  }

  lemma {:induction false} FullWordBy(text: string, i: nat, size: nat) returns (n: nat)
    requires size > 0 && i + size <= |text| && !HasSpace(text, i, size)
    ensures n <= |text| && FullWord(text[..n], size)
    decreases i
  {
    n := i + size;
    var p := text[..n];
    forall j | i <= j < n ensures p[j] != ' ' {
      assert p[j] == text[j];
    }
    if !SpaceEvery(p[..n - 1], size) {
      var core := p[..n - 1];
      var j: nat :| j <= |core| - size && !HasSpace(core, j, size);
      forall l | j <= l < j + size ensures text[l] != ' ' {
        assert text[l] == core[l];
      }
      n := FullWordBy(text, j, size);
    }
  }

  /** All words are shorter than the chunk size, but the last one may be as long if
      what follows, spaces only, fills whole chunks of more than one character. */
  predicate Steady(text: string, size: nat)
    requires size > 0
  {
    var p := Trim(text);
    || SpaceEvery(p, size)
    || (p != "" && SpaceEvery(p[..|p| - 1], size) && |text[|p|..]| % size == 0 && (p == text || size > 1))
  }

  /** The text without the spaces at its end. */
  function Trim(text: string): (p: string)
    ensures |p| <= |text| && text[..|p|] == p && Spaces(text[|p|..])
    ensures p != "" ==> p[|p| - 1] != ' '
  {
    if text == "" || text[|text| - 1] != ' ' then text
    else
      var p := Trim(text[..|text| - 1]);
      assert text[..|p|] == text[..|text| - 1][..|p|];
      assert forall i :: |p| <= i < |text| - 1 ==> text[i] == text[..|text| - 1][|p|..][i - |p|];
      p
  }

  lemma LastFullWord(p: string, size: nat)
    requires size > 0 && p != "" && SpaceEvery(p[..|p| - 1], size) && !SpaceEvery(p, size)
    ensures FullWord(p, size)
  {
    var i: nat :| i <= |p| - size && !HasSpace(p, i, size);
    var core := p[..|p| - 1];
    assert forall j :: i <= j < i + size && j < |core| ==> core[j] == p[j];
    assert i < |p| - size ==> !HasSpace(core, i, size);
  }

  lemma SteadyPages(text: string, pages: seq<string>, size: nat)
    requires size > 0 && Steady(text, size) && Concat(pages) == text
    ensures PageChunks("", pages, size) == Chunks(text, size)
  {
    var p := Trim(text);
    var sp := text[|p|..];
    assert SpaceEvery(p, size) ||
      (p != "" && SpaceEvery(p[..|p| - 1], size) && |sp| % size == 0 && (p == text || size > 1));
    hide *;
    assert "" + Concat(pages) == p + sp == text;
    if SpaceEvery(p, size) {
      ShortThenSpaces(p, sp, size);
      ShortWords("", pages, size);
    } else {
      LastFullWord(p, size);
      SpacesShort(sp, size);
      FullWordPages("", pages, p, sp, size);
    }
  }

  lemma ShortThenSpaces(p: string, sp: string, size: nat)
    requires size > 0 && SpaceEvery(p, size) && Spaces(sp)
    ensures SpaceEvery(p + sp, size)
  {
    forall i | 0 <= i <= |p + sp| - size ensures HasSpace(p + sp, i, size) {
      if i + size <= |p| {
        assert HasSpace(p, i, size);
        var j := SomeSpace(p, i, size);
        assert (p + sp)[j] == ' ';
      } else {
        assert (p + sp)[i + size - 1] == ' ';
      }
    }
  }

  /** The chunks are the same however the text is divided into pages. */
  ghost predicate PagesAgree(text: string, size: nat)
    requires size > 0
  {
    forall pages | Concat(pages) == text :: PageChunks("", pages, size) == Chunks(text, size)
  }

  lemma LastPage(x: string, size: nat)
    requires size > 0
    ensures PageChunks("", [x], size) == Chunks(x, size) && Concat([x]) == x
  {
    assert "" + x == x;
    WithRestAppend(Pieces(x, size), [], Left(x, size));
  }

  lemma FullWordPage(p: string, pages: seq<string>, size: nat)
    requires FullWord(p, size)
    ensures PageChunks("", [p] + pages, size) == Pieces(p, size) + PageChunks("", pages, size)
    ensures Concat([p] + pages) == p + Concat(pages)
  {
    assert "" + p == p && ([p] + pages)[1..] == pages;
    FullWordPieces(p, "", size);
  }

  /** Dividing at the end of a full word shows that nothing may hang on the
      character after it. */
  lemma AgreeAfterFullWord(text: string, n: nat, size: nat)
    requires n <= |text| && FullWord(text[..n], size) && PagesAgree(text, size)
    ensures Chunks(text[n..], size) == Chunks(From(text[n..], 1), size)
  {
    var p, x := text[..n], text[n..];
    assert text == p + x;
    FullWordChunks(p, x, size);
    LastPage(x, size);
    FullWordPage(p, [x], size);
    SameTail(Pieces(p, size), Chunks(x, size), Chunks(From(x, 1), size));
  }

  lemma SameTail(a: seq<string>, b: seq<string>, c: seq<string>)
    requires a + b == a + c
    ensures b == c
  {
    assert (a + b)[|a|..] == b && (a + c)[|a|..] == c;
  }

  /** Three pages show two full words. */
  lemma TwoFullWords(p: string, q: string, y: string, size: nat)
    requires FullWord(p, size) && FullWord(q, size)
    ensures Concat([p, q, y]) == p + (q + y)
    ensures PageChunks("", [p, q, y], size) != Chunks(p + (q + y), size)
  {
    hide *;
    FullWordSize(p, size);
    FullWordSize(q, size);
    LastPage(y, size);
    FullWordPage(q, [y], size);
    FullWordPage(p, [q] + [y], size);
    assert [p] + ([q] + [y]) == [p, q, y];
    var paged, rest := Pieces(q, size) + Chunks(y, size), Chunks(From(q + y, 1), size);
    FullWordChunks(p, q + y, size);
    FullWordChunks(q, y, size);
    WeightAppend(Pieces(q, size), Chunks(y, size));
    WeightChunks(y, size);
    WeightChunks(From(q + y, 1), size);
    assert Weight(paged) > Weight(rest);
    if Pieces(p, size) + paged == Pieces(p, size) + rest {
      SameTail(Pieces(p, size), paged, rest);
    }
  }

  lemma OneFullWord(text: string, n: nat, size: nat)
    requires n <= |text| && FullWord(text[..n], size) && PagesAgree(text, size)
    ensures SpaceEvery(text[n..], size)
  {
    hide *;
    var p, x := text[..n], text[n..];
    FullWordSize(p, size);
    if !SpaceEvery(x, size) {
      var m := FirstFullWord(x, size);
      var q, y := x[..m], x[m..];
      TwoFullWords(p, q, y, size);
      assert x == q + y && text == p + x;
      Disagree(text, [p, q, y], size);
    }
  }

  lemma Disagree(text: string, pages: seq<string>, size: nat)
    requires size > 0 && Concat(pages) == text && PageChunks("", pages, size) != Chunks(text, size)
    ensures !PagesAgree(text, size)
  {
    hide Chunks, PageChunks;
  }

  lemma AgreeSteady(text: string, size: nat)
    requires size > 0 && PagesAgree(text, size)
    ensures Steady(text, size)
  {
    var p := Trim(text);
    if !SpaceEvery(p, size) {
      var n := FirstFullWord(p, size);
      var x := text[n..];
      assert text[..n] == p[..n];
      assert n < |p| ==> x[|p| - 1 - n] == p[|p| - 1];
      assert FullWord(p[..n], size) && n == |p| ==> p[..n] == p && SpaceEvery(p[..|p| - 1], size);
      hide PagesAgree, SpaceEvery, FullWord, Trim;
      AgreeAfterFullWord(text, n, size);
      OneFullWord(text, n, size);
      if x != "" {
        OnlySpaces(x, size);
      }
    }
  }

  /** The pages do not matter exactly when all words are shorter than the chunk size,
      except that the last one may be as long if any spaces after it fill whole
      chunks. */
  lemma PagesIrrelevant(text: string, size: nat)
    requires size > 0
    ensures PagesAgree(text, size) <==> Steady(text, size)
  {
    if Steady(text, size) {
      forall pages | Concat(pages) == text ensures PageChunks("", pages, size) == Chunks(text, size) {
        SteadyPages(text, pages, size);
      }
    } else if PagesAgree(text, size) {
      AgreeSteady(text, size);
    }
  }

  /** For a text that does not end in a space its last character may be left out. */
  lemma PlainPagesIrrelevant(text: string, size: nat)
    requires size > 0 && text != "" && text[|text| - 1] != ' '
    ensures PagesAgree(text, size) <==> SpaceEvery(text[..|text| - 1], size)
  {
    assert Trim(text) == text && text[|text|..] == "";
    hide PagesAgree, SpaceEvery, Trim;
    PagesIrrelevant(text, size);
    if SpaceEvery(text, size) {
      SpaceEveryPart(text, 0, |text| - 1, size);
      assert text[0..|text| - 1] == text[..|text| - 1];
    }
  }

  /** Joining the chunks with spaces gives the text back exactly when no cut
      loses anything. */
  lemma Rejoin(pages: seq<string>, size: nat)
    requires size > 0
    ensures Join(PageChunks("", pages, size)) == Concat(pages) <==> LosesNothing("", pages, size)
  {
    hide *;
    AllChunksShort("", pages, size);
    RejoinFrom("", pages, size);
    assert "" + Concat(pages) == Concat(pages);
  }

  lemma {:induction false} RejoinFrom(curr: string, pages: seq<string>, size: nat)
    requires size > 0
    ensures Join(AllChunks(curr, pages, size)) == curr + Concat(pages) <==> LosesNothing(curr, pages, size)
    decreases |pages|, |curr|
  {
    hide *;
    if |curr| >= size {
      var k := CutAt(curr, size);
      var rest, later := From(curr, k + 1), Concat(pages);
      AllChunksStep(curr, pages, size);
      AllChunksEmpty(rest, pages, size);
      LosesNothingCut(curr, pages, size);
      if k == |curr| {
        PageEnd(curr, pages, size);
      } else if rest + later != "" {
        RejoinFrom(rest, pages, size);
        RejoinCut(curr, k, later, AllChunks(rest, pages, size));
      } else {
        JoinOne(curr[..k]);
        assert [curr[..k]] + AllChunks(rest, pages, size) == [curr[..k]];
        assert |curr + later| > k;
      }
    } else {
      LosesNothingPage(curr, pages, size);
      if pages != [] {
        AllChunksPage(curr, pages, size);
        RejoinFrom(curr + pages[0], pages[1..], size);
      } else {
        AllChunksEnd(curr, size);
        JoinOne(curr);
      }
    }
  }

  lemma RejoinCut(curr: string, k: nat, later: string, tail: seq<string>)
    requires k < |curr| && tail != []
    ensures Join([curr[..k]] + tail) == curr + later <==> curr[k] == ' ' && Join(tail) == From(curr, k + 1) + later
  {
    hide Join;
    assert (curr + later)[..k] == curr[..k] && (curr + later)[k + 1..] == From(curr, k + 1) + later;
    JoinStep(curr + later, k, From(curr, k + 1) + later, tail);
  }

  /** A word that fills a chunk at the end of a page is joined without a loss exactly
      when the missing space is that of a last chunk made of spaces. */
  lemma PageEnd(curr: string, pages: seq<string>, size: nat)
    requires size > 0 && |curr| == size == CutAt(curr, size)
    ensures Join(AllChunks(curr, pages, size)) == curr + Concat(pages) <==>
      Spaces(Concat(pages)) && |Concat(pages)| % size == 0
  {
    var later, tail := Concat(pages), AllChunks("", pages, size);
    assert From(curr, size + 1) == "" && curr[..size] == curr && "" + later == later;
    assert later == "" ==> Spaces(later);
    hide *;
    AllChunksStep(curr, pages, size);
    AllChunksEmpty("", pages, size);
    if later == "" {
      JoinOne(curr);
    } else {
      JoinAfter(curr, tail, later);
      JoinNearly("", pages, size);
      if " " + Join(tail) == later {
        ShiftedSpaces(Join(tail), later);
      }
      if Spaces(later) {
        PagedSpaces(pages, size);
      }
    }
  }

  lemma JoinAfter(first: string, tail: seq<string>, later: string)
    requires tail != []
    ensures Join([first] + tail) == first + later <==> " " + Join(tail) == later
  {
    hide Join;
    JoinCons(first, tail);
    var missing := " " + Join(tail);
    assert first + " " + Join(tail) == first + missing;
    assert (first + missing)[|first|..] == missing && (first + later)[|first|..] == later;
  }

  lemma ShiftedSpaces(joined: string, later: string)
    requires " " + joined == later && Nearly(joined, later)
    ensures Spaces(later)
  {
    var i := 0;
    while i < |joined|
      invariant i <= |joined| && forall j :: 0 <= j <= i ==> later[j] == ' '
    {
      assert later[i + 1] == joined[i];
      i := i + 1;
    }
  }

  /** Pages of spaces, joined, lack one space exactly when they fill whole chunks. */
  lemma PagedSpaces(pages: seq<string>, size: nat)
    requires size > 0 && Spaces(Concat(pages)) && Concat(pages) != ""
    ensures " " + Join(AllChunks("", pages, size)) == Concat(pages) <==> |Concat(pages)| % size == 0
  {
    hide *;
    var later := Concat(pages);
    AllChunksShort("", pages, size);
    assert "" + later == later;
    SpacesEverywhere(later, size);
    ShortWords("", pages, size);
    ShortWordsJoin(later, size);
    SpacesLeft(later, size);
    SpacesShift(Join(Chunks(later, size)), later);
  }

  lemma SpacesShift(joined: string, s: string)
    requires Spaces(s) && (joined == s || joined + " " == s)
    ensures " " + joined == s <==> joined + " " == s
  {
    if joined + " " == s {
      forall i | 0 <= i < |s| ensures (" " + joined)[i] == s[i] {
        if i > 0 {
          assert (joined + " ")[i - 1] == s[i - 1];
        }
      }
    }
  }

  /** With a word as long as the chunk size before another they do matter: a page
      that ends with the chunk keeps the next character, which the joined text loses. */
  lemma PagesMatter() returns (pages: seq<string>, size: nat)
    ensures size > 0 && PageChunks("", pages, size) != Chunks(Concat(pages), size)
  {
    pages, size := ["ab", "c"], 2;
    assert Concat(pages) == "ab" + ("c" + "");
    assert pages[1..] == ["c"] && pages[1..][1..] == [];
    var joined := "abc";
    assert Concat(pages) == joined;
    assert CutAt(joined, 2) == 2;
    assert From(joined, 3) == "";
    assert Chunks(joined, 2) == ["ab"];
    assert "" + "ab" == "ab" && CutAt("ab", 2) == 2 && From("ab", 3) == "";
    assert "ab"[..2] == "ab" && Pieces("", 2) == [] && Left("", 2) == "";
    assert Pieces("ab", 2) == ["ab"] && Left("ab", 2) == "";
    assert "" + "c" == "c" && Pieces("c", 2) == [] && Left("c", 2) == "c";
    assert PageChunks("c", [], 2) == ["c"];
    assert PageChunks("", ["c"], 2) == ["c"];
    assert PageChunks("", pages, 2) == ["ab", "c"];
  }

  /** Losses: a long word loses a character at every cut, and a text that ends in
      a space may lose it. */
  lemma LossyExamples()
    ensures !LosesNothing("abc", [], 2) && !LosesNothing("a ", [], 2)
  {
    assert CutAt("abc", 2) == 2;
    assert CutAt("a ", 2) == 1;
  }
}
