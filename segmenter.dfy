/** The product-block segmentation of the ingestion script: the extracted
    fragments are joined with line feeds, the text is cut in front of every
    product heading (a regular-expression split on a zero-width lookahead),
    and each piece is stripped and kept only when it looks like a product
    record. */
module Segmenter {
  import opened Text

  /** The word that opens every product heading and that every kept record
      must contain. */
  const Marker: string := "Forever"

  /** The registered-trademark sign that closes a heading. */
  const Trademark: char := '®'

  /** A kept block must be strictly longer than this. */
  const MinRecordLength: nat := 100

  /** From index `k`, the pattern `[^\n]+®` matches: at least one character
      other than a line feed, then a trademark sign, all on one line. */
  predicate TrademarkAfter(s: string, k: nat)
    requires k <= |s|
    decreases |s| - k
  {
    if k + 1 >= |s| then false
    else if s[k] == '\n' then false
    else s[k + 1] == Trademark || TrademarkAfter(s, k + 1)
  }

  /** The scan above agrees with the direct reading of `[^\n]+®`: a trademark
      sign at some index `j > k`, with no line feed from `k` up to it. */
  lemma {:induction false} TrademarkAfterIff(s: string, k: nat)
    requires k <= |s|
    ensures TrademarkAfter(s, k) <==>
      exists j :: k < j < |s| && s[j] == Trademark && NoLineFeed(s, k, j)
    decreases |s| - k
  {
    if k + 1 < |s| && s[k] != '\n' {
      TrademarkAfterIff(s, k + 1);
      if TrademarkAfter(s, k) {
        if s[k + 1] == Trademark {
          assert NoLineFeed(s, k, k + 1);
        } else {
          var j :| k + 1 < j < |s| && s[j] == Trademark && NoLineFeed(s, k + 1, j);
          assert NoLineFeed(s, k, j);
        }
      } else {
        forall j | k < j < |s| && s[j] == Trademark
          ensures !NoLineFeed(s, k, j)
        {
          assert j != k + 1;
          assert !NoLineFeed(s, k + 1, j);
        }
      }
    } else if k < |s| {
      forall j | k < j < |s|
        ensures !NoLineFeed(s, k, j)
      {
        assert s[k] == '\n';
      }
    }
  }

  predicate NoLineFeed(s: string, from: nat, to: nat)
    requires from <= to <= |s|
  {
    forall m :: from <= m < to ==> s[m] != '\n'
  }

  /** The part of the heading pattern after the optional line feed,
      `Forever\s[A-Z][^\n]+®`, matches at index `i`. */
  predicate HeadingAt(s: string, i: nat)
    requires i <= |s|
  {
    && i + |Marker| + 2 <= |s|
    && s[i..i + |Marker|] == Marker
    && IsSpace(s[i + |Marker|])
    && 'A' <= s[i + |Marker| + 1] <= 'Z'
    && TrademarkAfter(s, i + |Marker| + 2)
  }

  /** The lookahead `(?=\n?Forever\s[A-Z][^\n]+®)` succeeds at position `p`:
      either the heading starts right there, or a line feed followed by a
      heading does. */
  predicate CutAt(s: string, p: nat)
    requires p <= |s|
  {
    HeadingAt(s, p) || (p < |s| && s[p] == '\n' && HeadingAt(s, p + 1))
  }

  /** The positions from `p` on where the lookahead succeeds, left to right. */
  function Cuts(s: string, p: nat): (r: seq<nat>)
    requires p <= |s|
    ensures forall k :: 0 <= k < |r| ==> p <= r[k] < |s| && CutAt(s, r[k])
    ensures Ascending(r)
    ensures forall q :: p <= q < |s| && CutAt(s, q) ==> q in r
    decreases |s| - p
  {
    if p == |s| then []
    else if CutAt(s, p) then [p] + Cuts(s, p + 1)
    else Cuts(s, p + 1)
  }

  /** The pieces of `s[from..]` between consecutive cut positions. */
  function Pieces(s: string, from: nat, cuts: seq<nat>): (r: seq<string>)
    requires from <= |s|
    requires forall k :: 0 <= k < |cuts| ==> from <= cuts[k] <= |s|
    requires Ascending(cuts)
    ensures |r| == |cuts| + 1
    decreases |cuts|
  {
    if cuts == [] then [s[from..]]
    else [s[from..cuts[0]]] + Pieces(s, cuts[0], cuts[1..])
  }

  /** `re.split` with the heading lookahead: the text cut at every position
      where the lookahead succeeds. A cut at position 0 leaves an empty first
      piece. */
  function Split(s: string): seq<string>
  {
    Pieces(s, 0, Cuts(s, 0))
  }

  /** The piece boundaries: the start, every cut position, and the end. */
  function Bounds(s: string): seq<nat>
  {
    [0] + Cuts(s, 0) + [|s|]
  }

  /** Concatenation of a list of strings. */
  function Concat(parts: seq<string>): string
  {
    if parts == [] then "" else parts[0] + Concat(parts[1..])
  }

  lemma {:induction false} PiecesConcat(s: string, from: nat, cuts: seq<nat>)
    requires from <= |s|
    requires forall k :: 0 <= k < |cuts| ==> from <= cuts[k] <= |s|
    requires Ascending(cuts)
    ensures Concat(Pieces(s, from, cuts)) == s[from..]
    decreases |cuts|
  {
    if cuts == [] {
      assert Concat([s[from..]]) == s[from..] + Concat([]);
    } else {
      PiecesConcat(s, cuts[0], cuts[1..]);
      assert s[from..] == s[from..cuts[0]] + s[cuts[0]..];
    }
  }

  /** The split is lossless: the pieces concatenate back to the text, since
      a lookahead consumes nothing. */
  lemma SplitConcat(s: string)
    ensures Concat(Split(s)) == s
  {
    PiecesConcat(s, 0, Cuts(s, 0));
  }

  lemma {:induction false} PiecesAt(s: string, from: nat, cuts: seq<nat>, i: nat)
    requires from <= |s|
    requires forall k :: 0 <= k < |cuts| ==> from <= cuts[k] <= |s|
    requires Ascending(cuts)
    requires i <= |cuts|
    ensures ([from] + cuts + [|s|])[i] <= ([from] + cuts + [|s|])[i + 1] <= |s|
    ensures Pieces(s, from, cuts)[i] == s[([from] + cuts + [|s|])[i]..([from] + cuts + [|s|])[i + 1]]
    decreases |cuts|
  {
    var b := [from] + cuts + [|s|];
    if cuts != [] && i > 0 {
      PiecesAt(s, cuts[0], cuts[1..], i - 1);
      assert [cuts[0]] + cuts[1..] + [|s|] == b[1..];
    }
  }

  /** Piece `i` of the split is the text between boundaries `i` and `i + 1`. */
  lemma SplitAt(s: string, i: nat)
    requires i < |Split(s)|
    ensures |Split(s)| == |Bounds(s)| - 1
    ensures Bounds(s)[i] <= Bounds(s)[i + 1] <= |s|
    ensures Split(s)[i] == s[Bounds(s)[i]..Bounds(s)[i + 1]]
  {
    PiecesAt(s, 0, Cuts(s, 0), i);
  }

  /** Every piece after the first begins where the lookahead succeeds and is
      not empty, and no position strictly inside a piece is a heading
      position. */
  lemma SplitPiecesAreHeadingBlocks(s: string, i: nat)
    requires i < |Split(s)|
    ensures 0 < i ==> CutAt(s, Bounds(s)[i]) && Split(s)[i] != ""
    ensures forall q :: Bounds(s)[i] < q < Bounds(s)[i + 1] ==> !CutAt(s, q)
  {
    SplitAt(s, i);
    var c := Cuts(s, 0);
    var b := Bounds(s);
    if 0 < i {
      assert b[i] == c[i - 1];
      if i < |c| {
        assert b[i + 1] == c[i];
      }
    }
    forall q | b[i] < q < b[i + 1]
      ensures !CutAt(s, q)
    {
      BetweenNeighbours(c, i, q);
    }
  }

  /** A position strictly between two neighbouring entries of an ascending
      list is not in the list. */
  lemma BetweenNeighbours(c: seq<nat>, i: nat, q: nat)
    requires Ascending(c) && i <= |c|
    requires 0 < i ==> c[i - 1] < q
    requires i < |c| ==> q < c[i]
    ensures q !in c
  {
    forall k | 0 <= k < |c|
      ensures c[k] != q
    {
      if k < i {
        assert c[k] <= c[i - 1];
      } else {
        assert c[i] <= c[k];
      }
    }
  }

  /** The first piece is empty exactly when a heading position is at the very
      start of the text (an empty text splits into one empty piece). */
  lemma SplitFirstPiece(s: string)
    ensures (|Split(s)| > 1 && Split(s)[0] == "") <==> CutAt(s, 0)
  {
    SplitAt(s, 0);
  }

  /** A text without any heading position is not cut at all. */
  lemma SplitWithoutHeadings(s: string)
    requires forall q :: 0 <= q < |s| ==> !CutAt(s, q)
    ensures Split(s) == [s]
  {
    CutsSkip(s, 0, |s|);
  }

  /** A stretch without heading positions contributes no cuts. */
  lemma {:induction false} CutsSkip(s: string, p: nat, t: nat)
    requires p <= t <= |s|
    requires forall q :: p <= q < t ==> !CutAt(s, q)
    ensures Cuts(s, p) == Cuts(s, t)
    decreases t - p
  {
    if p < t {
      CutsSkip(s, p + 1, t);
    }
  }

  /** A heading on its own line after a preamble: the text splits into the
      preamble, the lone line feed, and the heading block. */
  lemma SplitAfterPreamble(preamble: string, block: string)
    requires HeadingAt(block, 0)
    requires forall q :: 0 <= q < |preamble| ==> !CutAt(preamble + "\n" + block, q)
    requires forall q :: |preamble| + 1 < q < |preamble| + 1 + |block| ==> !CutAt(preamble + "\n" + block, q)
    ensures Split(preamble + "\n" + block) == [preamble, "\n", block]
  {
    var s := preamble + "\n" + block;
    var n := |preamble|;
    assert s[n + 1..] == block;
    HeadingShift(s, n + 1);
    CutsAroundHeading(s, n);
    CutsSkip(s, 0, n);
    assert s[0..n] == preamble;
    assert s[n..n + 1] == "\n";
    PiecesOfTwoCuts(s, n);
  }

  /** A line feed followed by a heading, with no heading position after it,
      gives the last two cuts. */
  lemma CutsAroundHeading(s: string, n: nat)
    requires n + 1 <= |s| && s[n] == '\n' && HeadingAt(s, n + 1)
    requires forall q :: n + 1 < q < |s| ==> !CutAt(s, q)
    ensures Cuts(s, n) == [n, n + 1]
  {
    CutsSkip(s, n + 2, |s|);
    assert Cuts(s, n + 1) == [n + 1];
  }

  lemma PiecesOfTwoCuts(s: string, n: nat)
    requires n + 1 <= |s|
    ensures Pieces(s, 0, [n, n + 1]) == [s[0..n], s[n..n + 1], s[n + 1..]]
  {
    assert [n + 1][1..] == [] && [n, n + 1][1..] == [n + 1];
    assert Pieces(s, 0, [n, n + 1]) == [s[0..n]] + Pieces(s, n, [n + 1]);
    assert Pieces(s, n, [n + 1]) == [s[n..n + 1], s[n + 1..]];
  }

  /** Anywhere in any text, a line feed in front of a heading is cut off on
      both sides: it becomes a piece of its own, which the filter drops. */
  lemma LoneLineFeedPiece(s: string, n: nat) returns (i: nat)
    requires n + 1 < |s| && s[n] == '\n' && HeadingAt(s, n + 1)
    ensures 0 < i < |Split(s)| && Split(s)[i] == "\n"
    ensures Kept(Split(s)[i]) == []
  {
    var c := Cuts(s, 0);
    assert CutAt(s, n) && CutAt(s, n + 1);
    assert n in c && n + 1 in c;
    var j := NextCut(c, n);
    i := j + 1;
    SplitAt(s, i);
    var b := Bounds(s);
    assert b[i] == c[j] && b[i + 1] == c[j + 1];
    assert s[n..n + 1] == "\n";
    LineFeedDropped();
  }

  /** In an ascending list holding both `n` and `n + 1`, the entry after `n`
      is `n + 1`. */
  lemma NextCut(c: seq<nat>, n: nat) returns (j: nat)
    requires Ascending(c) && n in c && n + 1 in c
    ensures j + 1 < |c| && c[j] == n && c[j + 1] == n + 1
  {
    j :| 0 <= j < |c| && c[j] == n;
    var j' :| 0 <= j' < |c| && c[j'] == n + 1;
    assert j < j';
    assert c[j] < c[j + 1] <= c[j'];
  }

  /** A lone line feed strips to nothing and is not a record. */
  lemma LineFeedDropped()
    ensures Kept("\n") == []
  {
    StripAllSpace("\n");
  }

  /** Whether a heading starts at an index depends only on the text from
      there on. */
  lemma HeadingShift(s: string, d: nat)
    requires d <= |s|
    ensures HeadingAt(s, d) == HeadingAt(s[d..], 0)
  {
    var t := s[d..];
    if d + |Marker| + 2 <= |s| {
      assert s[d..d + |Marker|] == t[..|Marker|];
      assert s[d + |Marker|] == t[|Marker|];
      assert s[d + |Marker| + 1] == t[|Marker| + 1];
      TrademarkShift(s, d, |Marker| + 2);
    }
  }

  /** The trademark scan only looks ahead, so it gives the same answer on a
      suffix of the text. */
  lemma {:induction false} TrademarkShift(s: string, d: nat, k: nat)
    requires d + k <= |s|
    ensures TrademarkAfter(s, d + k) == TrademarkAfter(s[d..], k)
    decreases |s| - d - k
  {
    if d + k + 1 < |s| {
      TrademarkShift(s, d, k + 1);
    }
  }

  /** A strictly increasing list of positions. */
  predicate Ascending(c: seq<nat>)
  {
    forall a, b :: 0 <= a < b < |c| ==> c[a] < c[b]
  }

  /** LangChain's `Document`, reduced to the text it carries. */
  datatype Document = Document(pageContent: string)

  /** The filter of the loop: longer than 100 characters and mentioning the
      marker word. */
  predicate IsRecord(t: string)
  {
    |t| > MinRecordLength && Contains(t, Marker)
  }

  /** What one block contributes: its stripped text as a document when that
      passes the filter, nothing otherwise. */
  function Kept(bloco: string): seq<Document>
  {
    var limpo := Strip(bloco);
    if IsRecord(limpo) then [Document(limpo)] else []
  }

  /** What `f` makes of each block, concatenated in block order. */
  function Gather<T>(blocks: seq<string>, f: string -> seq<T>): seq<T>
  {
    if blocks == [] then []
    else Gather(blocks[..|blocks| - 1], f) + f(blocks[|blocks| - 1])
  }

  /** The documents built from a list of blocks, in block order. */
  function Products(blocks: seq<string>): seq<Document>
  {
    Gather(blocks, Kept)
  }

  /** The loop over the split pieces: each is stripped and appended to the
      result when it passes the filter. */
  method BuildProductDocs(padroes: seq<string>) returns (produtosDocs: seq<Document>)
    ensures produtosDocs == Products(padroes)
    ensures |produtosDocs| <= |padroes|
  {
    produtosDocs := [];
    for i := 0 to |padroes|
      invariant produtosDocs == Products(padroes[..i])
      invariant |produtosDocs| <= i
    {
      var bloco := padroes[i];
      var blocoLimpo := Strip(bloco);
      if |blocoLimpo| > MinRecordLength && Contains(blocoLimpo, Marker) {
        produtosDocs := produtosDocs + [Document(blocoLimpo)];
      }
      assert padroes[..i + 1][..i] == padroes[..i];
    }
    assert padroes[..|padroes|] == padroes;
  }

  /** Gathering distributes over concatenation of block lists. */
  lemma {:induction false} GatherAppend<T>(a: seq<string>, b: seq<string>, f: string -> seq<T>)
    ensures Gather(a + b, f) == Gather(a, f) + Gather(b, f)
    decreases |b|
  {
    if b == [] {
      assert a + b == a;
    } else {
      var b', last := b[..|b| - 1], b[|b| - 1];
      var ab := a + b;
      assert ab[..|ab| - 1] == a + b' && ab[|ab| - 1] == last;
      calc {
        Gather(ab, f);
        Gather(a + b', f) + f(last);
        { GatherAppend(a, b', f); }
        Gather(a, f) + Gather(b', f) + f(last);
        Gather(a, f) + Gather(b, f);
      }
    }
  }

  /** An element is gathered exactly when it comes from some block. */
  lemma {:induction false} GatherMembership<T>(blocks: seq<string>, f: string -> seq<T>, x: T)
    ensures x in Gather(blocks, f) <==> exists i :: 0 <= i < |blocks| && x in f(blocks[i])
  {
    if blocks != [] {
      var init := blocks[..|blocks| - 1];
      GatherMembership(init, f, x);
      if x in Gather(init, f) {
        var i :| 0 <= i < |init| && x in f(init[i]);
        assert blocks[i] == init[i];
      }
      if exists i :: 0 <= i < |blocks| && x in f(blocks[i]) {
        var i :| 0 <= i < |blocks| && x in f(blocks[i]);
        if i < |init| {
          assert init[i] == blocks[i];
        }
      }
    }
  }

  /** Filtering distributes over concatenation of block lists: the result
      keeps block order. */
  lemma ProductsAppend(a: seq<string>, b: seq<string>)
    ensures Products(a + b) == Products(a) + Products(b)
  {
    GatherAppend(a, b, Kept);
  }

  /** A document is kept exactly when it is the stripped text of some block
      that passes the filter. */
  lemma ProductsMembership(blocks: seq<string>, d: Document)
    ensures d in Products(blocks) <==>
      exists i :: 0 <= i < |blocks| && IsRecord(Strip(blocks[i])) && d == Document(Strip(blocks[i]))
  {
    GatherMembership(blocks, Kept, d);
  }

  /** Every kept document passes the filter and is already stripped:
      stripping it again changes nothing. */
  lemma ProductsAreRecords(blocks: seq<string>)
    ensures forall d :: d in Products(blocks) ==>
      IsRecord(d.pageContent) && Trimmed(d.pageContent) && Strip(d.pageContent) == d.pageContent
  {
    forall d | d in Products(blocks)
      ensures IsRecord(d.pageContent) && Trimmed(d.pageContent) && Strip(d.pageContent) == d.pageContent
    {
      ProductsMembership(blocks, d);
      var i :| 0 <= i < |blocks| && IsRecord(Strip(blocks[i])) && d == Document(Strip(blocks[i]));
      var _ := StripMargins(blocks[i]);
      StripIdempotent(blocks[i]);
    }
  }

  /** The length bound is strict: a block whose stripped text is exactly 100
      characters is dropped even when it mentions the marker. */
  lemma HundredCharactersDropped(bloco: string)
    requires |Strip(bloco)| == MinRecordLength
    ensures Products([bloco]) == []
  {
    assert [bloco][..0] == [];
    assert Products([bloco]) == Gather([], Kept) + Kept(bloco);
  }

  /** One character more and a block mentioning the marker is kept. */
  lemma HundredAndOneCharactersKept(bloco: string)
    requires |Strip(bloco)| == MinRecordLength + 1 && Contains(Strip(bloco), Marker)
    ensures Products([bloco]) == [Document(Strip(bloco))]
  {
    assert [bloco][..0] == [];
    assert Products([bloco]) == Gather([], Kept) + Kept(bloco);
  }

  /** The catalogue scenario: junk before a heading on its own line yields
      exactly the heading block as the only record when the junk is too short
      to be a record and the block passes the filter. */
  lemma OneRecordAfterPreamble(preamble: string, block: string)
    requires HeadingAt(block, 0)
    requires forall q :: 0 <= q < |preamble| ==> !CutAt(preamble + "\n" + block, q)
    requires forall q :: |preamble| + 1 < q < |preamble| + 1 + |block| ==> !CutAt(preamble + "\n" + block, q)
    requires |preamble| <= MinRecordLength && IsRecord(Strip(block))
    ensures Products(Split(preamble + "\n" + block)) == [Document(Strip(block))]
  {
    SplitAfterPreamble(preamble, block);
    var _ := StripMargins(preamble);
    var _ := StripMargins("\n");
    assert [preamble, "\n", block] == [preamble] + ["\n"] + [block];
    ProductsAppend([preamble] + ["\n"], [block]);
    ProductsAppend([preamble], ["\n"]);
    assert [preamble][..0] == [] && ["\n"][..0] == [] && [block][..0] == [];
    assert Products([preamble]) == Gather([], Kept) + Kept(preamble);
    assert Products(["\n"]) == Gather([], Kept) + Kept("\n");
    assert Products([block]) == Gather([], Kept) + Kept(block);
  }

  /** The whole segmentation: join the fragments with line feeds, split in
      front of the headings, strip and filter. */
  function Segment(fragments: seq<string>): seq<Document>
  {
    Products(Split(Join(fragments, "\n")))
  }
}
