/**
 * The sentence-preserving side of the pipeline (text_seperator.py): the
 * language fallback around the foreign segmenter, the greedy packing of
 * sentences into chunks, the `i/N ` thread markers, and `process_tweet`.
 *
 * The language detector and the sentence segmenter are foreign libraries.
 * They are parameters here: `detect` answers `None` where the detector
 * raises, `nlp` answers `None` where running a model on the text raises.
 * The models are loaded at import, outside the `try`; a failed load is
 * not modelled.
 */
module TextSeparator {
  import opened Wrappers
  import opened Strings

  /** Texts up to this many characters are posted as they are. */
  const MaxPostLength: int := 300

  /** The languages a segmentation model is loaded for. */
  datatype Lang = En | De | Fr

  function Tag(lang: Lang): string {
    match lang
    case En => "en"
    case De => "de"
    case Fr => "fr"
  }

  /** The detected tag when a model exists for it, English otherwise. */
  function ModelLanguage(tag: string): (lang: Lang)
    ensures tag in {"en", "de", "fr"} ==> Tag(lang) == tag
    ensures tag !in {"en", "de", "fr"} ==> lang == En
  {
    if tag == "de" then De else if tag == "fr" then Fr else En
  }

  /**
   * `split_into_sentences`: the sentences the model of the detected language
   * finds, or no sentences at all when detection or segmentation raises.
   */
  function SplitIntoSentences(text: string, detect: string -> Option<string>,
                              nlp: (Lang, string) -> Option<seq<string>>): (sentences: seq<string>)
    ensures detect(text).None? ==> sentences == []
    ensures detect(text).Some? && nlp(ModelLanguage(detect(text).value), text).Some? ==>
              sentences == nlp(ModelLanguage(detect(text).value), text).value
    ensures detect(text).Some? && nlp(ModelLanguage(detect(text).value), text).None? ==> sentences == []
  {
    match detect(text)
    case None => []
    case Some(tag) =>
      match nlp(ModelLanguage(tag), text)
      case None => []
      case Some(found) => found
  }

  // ---------------------------------------------------------------------------
  // Packing sentences into chunks

  /**
   * The string `current_chunk` holds after the sentences of `group` were
   * appended to it, each followed by one space.
   */
  function Joined(group: seq<string>): string {
    if group == [] then "" else Joined(group[..|group| - 1]) + group[|group| - 1] + " "
  }

  lemma JoinedSnoc(group: seq<string>, s: string)
    ensures Joined(group + [s]) == Joined(group) + s + " "
  {
    assert (group + [s])[..|group|] == group;
  }

  lemma {:induction false} JoinedAppend(a: seq<string>, b: seq<string>)
    ensures Joined(a + b) == Joined(a) + Joined(b)
    decreases |b|
  {
    if b == [] {
      assert a + b == a;
    } else {
      var last := b[|b| - 1];
      var init := b[..|b| - 1];
      assert b == init + [last];
      assert a + b == (a + init) + [last];
      JoinedSnoc(a + init, last);
      JoinedSnoc(init, last);
      JoinedAppend(a, init);
      AppendAssoc(Joined(a), Joined(init), last);
      AppendAssoc(Joined(a), Joined(init) + last, " ");
    }
  }

  /** The chunk a group of sentences becomes: `current_chunk.strip()`. */
  function ChunkOf(group: seq<string>): string {
    Strip(Joined(group))
  }

  function Chunks(groups: seq<seq<string>>): (chunks: seq<string>)
    ensures |chunks| == |groups|
    ensures forall i :: 0 <= i < |groups| ==> chunks[i] == ChunkOf(groups[i])
  {
    if groups == [] then [] else [ChunkOf(groups[0])] + Chunks(groups[1..])
  }

  /** All the sentences of `groups`, in order. */
  function Flatten(groups: seq<seq<string>>): seq<string> {
    if groups == [] then [] else groups[0] + Flatten(groups[1..])
  }

  /**
   * The groups the loop still produces when `open` holds the sentences of
   * `current_chunk` and `rest` the sentences not yet visited: a sentence
   * joins the open group when the result still fits in `maxLength`, and
   * closes it and opens a new group otherwise.
   */
  function PackFrom(open: seq<string>, rest: seq<string>, maxLength: int): (groups: seq<seq<string>>)
    decreases |rest|
  {
    if rest == [] then [open]
    else if |Joined(open)| + |rest[0]| + 1 <= maxLength then PackFrom(open + [rest[0]], rest[1..], maxLength)
    else [open] + PackFrom([rest[0]], rest[1..], maxLength)
  }

  /** The groups `split_into_chunks` makes of `sentences`. */
  function Pack(sentences: seq<string>, maxLength: int): seq<seq<string>> {
    if sentences == [] then [] else PackFrom([], sentences, maxLength)
  }

  /**
   * The greedy rule stated on its own, for a partition `groups` of
   * `open + rest` whose first group extends `open`:
   *  - the sentences are those of `open + rest`, in order, each in one group;
   *  - every group after the first holds at least one sentence;
   *  - every sentence appended to a non-empty `current_chunk` fitted:
   *    a group that grew beyond what it started with has `Joined` length
   *    at most `maxLength`;
   *  - a group is closed only when the next sentence would not fit.
   */
  ghost predicate GreedyFrom(open: seq<string>, rest: seq<string>, groups: seq<seq<string>>, maxLength: int) {
    && |groups| >= 1
    && Flatten(groups) == open + rest
    && open <= groups[0]
    && (|groups[0]| > |open| ==> |Joined(groups[0])| <= maxLength)
    && (forall i :: 1 <= i < |groups| ==> |groups[i]| >= 2 ==> |Joined(groups[i])| <= maxLength)
    && (forall i :: 1 <= i < |groups| ==>
          groups[i] != [] && |Joined(groups[i - 1])| + |groups[i][0]| + 1 > maxLength)
  }

  /** The greedy partition of a whole sentence list; the first group starts from `""`. */
  ghost predicate Greedy(sentences: seq<string>, groups: seq<seq<string>>, maxLength: int) {
    if sentences == [] then groups == [] else GreedyFrom([], sentences, groups, maxLength)
  }

  lemma FlattenCons(g: seq<string>, groups: seq<seq<string>>)
    ensures Flatten([g] + groups) == g + Flatten(groups)
  {
    assert ([g] + groups)[1..] == groups;
  }

  /** Taking `x` into the open group keeps a partition greedy when `x` fits. */
  lemma GreedyGrow(open: seq<string>, x: string, r: seq<string>, groups: seq<seq<string>>, maxLength: int)
    requires GreedyFrom(open + [x], r, groups, maxLength) && |Joined(open)| + |x| + 1 <= maxLength
    ensures GreedyFrom(open, [x] + r, groups, maxLength)
  {
    AppendAssoc(open, [x], r);
    JoinedSnoc(open, x);
    assert open <= open + [x];
    if |groups[0]| == |open| + 1 {
      assert groups[0] == open + [x];
    }
  }

  /** Closing the open group before `x` keeps a partition greedy when `x` does not fit. */
  lemma GreedyClose(open: seq<string>, x: string, r: seq<string>, tail: seq<seq<string>>, maxLength: int)
    requires GreedyFrom([x], r, tail, maxLength) && |Joined(open)| + |x| + 1 > maxLength
    ensures GreedyFrom(open, [x] + r, [open] + tail, maxLength)
  {
    var groups := [open] + tail;
    FlattenCons(open, tail);
    forall i | 1 <= i < |groups|
      ensures |groups[i]| >= 2 ==> |Joined(groups[i])| <= maxLength
      ensures groups[i] != [] && |Joined(groups[i - 1])| + |groups[i][0]| + 1 > maxLength
    {
      assert groups[i] == tail[i - 1];
      if i == 1 {
        assert [x] <= tail[0];
        assert tail[0][0] == x;
      }
    }
  }

  lemma {:induction false} PackFromIsGreedy(open: seq<string>, rest: seq<string>, maxLength: int)
    ensures GreedyFrom(open, rest, PackFrom(open, rest, maxLength), maxLength)
    decreases |rest|
  {
    if rest == [] {
      FlattenCons(open, []);
      assert open + rest == open;
    } else {
      var x, r := rest[0], rest[1..];
      assert rest == [x] + r;
      if |Joined(open)| + |x| + 1 <= maxLength {
        PackFromIsGreedy(open + [x], r, maxLength);
        GreedyGrow(open, x, r, PackFrom(open + [x], r, maxLength), maxLength);
      } else {
        PackFromIsGreedy([x], r, maxLength);
        GreedyClose(open, x, r, PackFrom([x], r, maxLength), maxLength);
      }
    }
  }

  lemma JoinedPrefixLength(a: seq<string>, b: seq<string>)
    requires a <= b
    ensures |Joined(a)| <= |Joined(b)|
  {
    assert b == a + b[|a|..];
    JoinedAppend(a, b[|a|..]);
  }

  /** A greedy partition whose open group was closed before `x` continues greedily from `[x]`. */
  lemma GreedyAfterClose(open: seq<string>, x: string, r: seq<string>, groups: seq<seq<string>>, maxLength: int)
    requires GreedyFrom(open, [x] + r, groups, maxLength) && |groups[0]| == |open|
    ensures groups[0] == open && |Joined(open)| + |x| + 1 > maxLength
    ensures GreedyFrom([x], r, groups[1..], maxLength)
  {
    var tail := groups[1..];
    assert groups == [groups[0]] + tail;
    FlattenCons(groups[0], tail);
    assert groups[0] == open;
    assert Flatten(tail) == (groups[0] + Flatten(tail))[|open|..] == (open + ([x] + r))[|open|..] == [x] + r;
    assert tail != [];
    assert [tail[0]] + tail[1..] == tail;
    FlattenCons(tail[0], tail[1..]);
    assert tail[0] == groups[1] && groups[1] != [];
    assert tail[0][0] == (tail[0] + Flatten(tail[1..]))[0] == ([x] + r)[0] == x;
    forall i | 1 <= i < |tail|
      ensures |tail[i]| >= 2 ==> |Joined(tail[i])| <= maxLength
      ensures tail[i] != [] && |Joined(tail[i - 1])| + |tail[i][0]| + 1 > maxLength
    {
      assert tail[i] == groups[i + 1] && tail[i - 1] == groups[i];
    }
  }

  /** A greedy partition whose open group took `x` continues greedily from `open + [x]`. */
  lemma GreedyAfterGrow(open: seq<string>, x: string, r: seq<string>, groups: seq<seq<string>>, maxLength: int)
    requires GreedyFrom(open, [x] + r, groups, maxLength) && |groups[0]| > |open|
    ensures |Joined(open)| + |x| + 1 <= maxLength
    ensures GreedyFrom(open + [x], r, groups, maxLength)
  {
    var tail := groups[1..];
    assert groups == [groups[0]] + tail;
    FlattenCons(groups[0], tail);
    assert groups[0][|open|] == (open + ([x] + r))[|open|] == x;
    assert groups[0][..|open| + 1] == open + [x];
    JoinedPrefixLength(open + [x], groups[0]);
    JoinedSnoc(open, x);
    AppendAssoc(open, [x], r);
  }

  lemma {:induction false} GreedyFromIsPackFrom(open: seq<string>, rest: seq<string>, groups: seq<seq<string>>, maxLength: int)
    requires GreedyFrom(open, rest, groups, maxLength)
    ensures groups == PackFrom(open, rest, maxLength)
    decreases |rest|
  {
    if rest == [] {
      var tail := groups[1..];
      assert groups == [groups[0]] + tail;
      FlattenCons(groups[0], tail);
      assert groups[0] == open;
    } else {
      var x, r := rest[0], rest[1..];
      assert rest == [x] + r;
      if |groups[0]| == |open| {
        // the open group was closed: the next group starts with x
        GreedyAfterClose(open, x, r, groups, maxLength);
        GreedyFromIsPackFrom([x], r, groups[1..], maxLength);
        assert groups == [open] + groups[1..];
      } else {
        // the open group grew: its next sentence is x, and x fitted
        GreedyAfterGrow(open, x, r, groups, maxLength);
        GreedyFromIsPackFrom(open + [x], r, groups, maxLength);
      }
    }
  }

  /**
   * The groups `split_into_chunks` makes are exactly the greedy partition
   * of the sentences, and no other partition is greedy.
   */
  lemma PackIsTheGreedyPartition(sentences: seq<string>, groups: seq<seq<string>>, maxLength: int)
    ensures Greedy(sentences, groups, maxLength) <==> groups == Pack(sentences, maxLength)
  {
    if sentences != [] {
      PackFromIsGreedy([], sentences, maxLength);
      if Greedy(sentences, groups, maxLength) {
        GreedyFromIsPackFrom([], sentences, groups, maxLength);
      }
    }
  }

  /** Every sentence lands in exactly one chunk, in source order. */
  lemma PackKeepsSentences(sentences: seq<string>, maxLength: int)
    ensures Flatten(Pack(sentences, maxLength)) == sentences
  {
    if sentences != [] {
      PackFromIsGreedy([], sentences, maxLength);
    }
  }

  lemma JoinedSingle(s: string)
    ensures Joined([s]) == s + " "
  {
    JoinedSnoc([], s);
    assert [] + [s] == [s];
  }

  lemma ChunksSnoc(groups: seq<seq<string>>, g: seq<string>)
    ensures Chunks(groups + [g]) == Chunks(groups) + [ChunkOf(g)]
  {
    var a, b := Chunks(groups + [g]), Chunks(groups) + [ChunkOf(g)];
    forall k | 0 <= k < |a|
      ensures a[k] == b[k]
    {
      if k < |groups| {
        assert (groups + [g])[k] == groups[k];
      }
    }
  }

  /**
   * Stripping the joined group never lengthens it; a lone sentence becomes
   * that sentence stripped, no longer than the sentence.
   */
  lemma ChunkOfLength(g: seq<string>)
    ensures |ChunkOf(g)| <= |Joined(g)|
    ensures |g| == 1 ==> ChunkOf(g) == Strip(g[0]) && |ChunkOf(g)| <= |g[0]|
  {
    if |g| == 1 {
      assert g == [g[0]];
      JoinedSingle(g[0]);
      StripTrailingSpace(g[0]);
    }
  }

  /**
   * A chunk made of two or more sentences fits in `maxLength`; a chunk made
   * of one sentence is that sentence stripped, and only it can exceed
   * `maxLength`; only the first chunk can hold no sentence, and then it is
   * empty. The first chunk, which starts from an empty `current_chunk`,
   * always fits when `maxLength` is not negative.
   */
  lemma ChunkLength(sentences: seq<string>, maxLength: int, i: nat)
    requires i < |Pack(sentences, maxLength)|
    ensures var groups := Pack(sentences, maxLength);
            && (|groups[i]| >= 2 ==> |Chunks(groups)[i]| <= maxLength)
            && (|groups[i]| == 1 ==> Chunks(groups)[i] == Strip(groups[i][0]) && |Chunks(groups)[i]| <= |groups[i][0]|)
            && (groups[i] == [] ==> i == 0 && Chunks(groups)[i] == "")
    ensures i == 0 && maxLength >= 0 ==> |Chunks(Pack(sentences, maxLength))[0]| <= maxLength
  {
    var groups := Pack(sentences, maxLength);
    PackFromIsGreedy([], sentences, maxLength);
    assert GreedyFrom([], sentences, groups, maxLength);
    var g := groups[i];
    assert Chunks(groups)[i] == ChunkOf(g);
    ChunkOfLength(g);
    if i == 0 {
      assert |g| > 0 ==> |Joined(g)| <= maxLength;
      assert g == [] ==> Joined(g) == "";
    } else if |g| >= 2 {
      assert |Joined(g)| <= maxLength;
    }
  }

  /**
   * A first sentence that does not fit beside the empty `current_chunk`
   * closes it at once: the first chunk is the empty string.
   */
  lemma FirstChunkEmpty(sentences: seq<string>, maxLength: int)
    requires sentences != [] && |sentences[0]| >= maxLength
    ensures Chunks(Pack(sentences, maxLength))[0] == ""
  {
    assert Pack(sentences, maxLength) == [[]] + PackFrom([sentences[0]], sentences[1..], maxLength);
  }

  /** `split_into_chunks`: segments `text`, then packs its sentences greedily. */
  method SplitIntoChunks(text: string, maxLength: int, detect: string -> Option<string>,
                         nlp: (Lang, string) -> Option<seq<string>>) returns (chunks: seq<string>)
    ensures chunks == Chunks(Pack(SplitIntoSentences(text, detect, nlp), maxLength))
    ensures SplitIntoSentences(text, detect, nlp) == [] ==> chunks == []
  {
    var sentences := SplitIntoSentences(text, detect, nlp);
    chunks := [];
    var current := "";
    ghost var closed: seq<seq<string>> := [];
    ghost var open: seq<string> := [];
    for i := 0 to |sentences|
      invariant current == Joined(open)
      invariant chunks == Chunks(closed)
      invariant i > 0 ==> open != []
      invariant closed + PackFrom(open, sentences[i..], maxLength) == PackFrom([], sentences, maxLength)
    {
      var sentence := sentences[i];
      PackLoopStep(sentences, i, closed, open, maxLength);
      if |current| + |sentence| + 1 <= maxLength {
        JoinedSnoc(open, sentence);
        current := current + sentence + " ";
        open := open + [sentence];
      } else {
        ChunksSnoc(closed, open);
        chunks := chunks + [Strip(current)];
        ghost var rest := PackFrom([sentence], sentences[i + 1..], maxLength);
        AppendAssoc(closed, [open], rest);
        closed := closed + [open];
        JoinedSingle(sentence);
        current := sentence + " ";
        open := [sentence];
      }
    }
    assert sentences[|sentences|..] == [];
    if current != "" {
      ChunksSnoc(closed, open);
      chunks := chunks + [Strip(current)];
      closed := closed + [open];
    }
  }

  /** One turn of the packing loop keeps the groups still to come in step with `Pack`. */
  lemma PackLoopStep(sentences: seq<string>, i: nat, closed: seq<seq<string>>, open: seq<string>, maxLength: int)
    requires i < |sentences|
    requires closed + PackFrom(open, sentences[i..], maxLength) == PackFrom([], sentences, maxLength)
    ensures |Joined(open)| + |sentences[i]| + 1 <= maxLength ==>
              closed + PackFrom(open + [sentences[i]], sentences[i + 1..], maxLength) == PackFrom([], sentences, maxLength)
    ensures |Joined(open)| + |sentences[i]| + 1 > maxLength ==>
              (closed + [open]) + PackFrom([sentences[i]], sentences[i + 1..], maxLength) == PackFrom([], sentences, maxLength)
  {
    var rest := sentences[i..];
    assert rest[0] == sentences[i] && rest[1..] == sentences[i + 1..];
    if |Joined(open)| + |sentences[i]| + 1 > maxLength {
      var tail := PackFrom([sentences[i]], sentences[i + 1..], maxLength);
      assert PackFrom(open, rest, maxLength) == [open] + tail;
      AppendAssoc(closed, [open], tail);
    }
  }

  // ---------------------------------------------------------------------------
  // Thread markers

  /** The marker `f"{position}/{total} "` put in front of a chunk. */
  function Marker(position: nat, total: nat): string {
    NatToString(position) + "/" + NatToString(total) + " "
  }

  /** `format_thread`: each chunk behind its 1-based position and the chunk count. */
  method FormatThread(chunks: seq<string>) returns (thread: seq<string>)
    ensures |thread| == |chunks|
    ensures forall i :: 0 <= i < |chunks| ==> thread[i] == Marker(i + 1, |chunks|) + chunks[i]
  {
    thread := [];
    var total := |chunks|;
    for i := 0 to |chunks|
      invariant |thread| == i
      invariant forall k :: 0 <= k < i ==> thread[k] == Marker(k + 1, total) + chunks[k]
    {
      thread := thread + [Marker(i + 1, total) + chunks[i]];
    }
  }

  /** A post of a thread read back: its position, the thread's length and the chunk. */
  datatype Numbered = Numbered(position: nat, total: nat, chunk: string)

  /** Reads a decimal number ended by `sep`: its value and what follows `sep`. */
  function ReadNumber(s: string, sep: char): Option<(nat, string)> {
    var n := DigitSpan(s);
    if n == 0 || n == |s| || s[n] != sep then None
    else Some((DigitsValue(s[..n]), s[n + 1..]))
  }

  lemma ReadNumberOf(d: string, sep: char, t: string)
    requires |d| > 0 && forall i :: 0 <= i < |d| ==> IsDigit(d[i])
    requires !IsDigit(sep)
    ensures ReadNumber(d + [sep] + t, sep) == Some((DigitsValue(d), t))
  {
    DigitsThen(d, sep, t);
  }

  /** Reads `digits "/" digits " " chunk`, the shape `format_thread` writes. */
  function ParseNumbered(post: string): Option<Numbered> {
    match ReadNumber(post, '/')
    case None => None
    case Some((position, rest)) =>
      match ReadNumber(rest, ' ')
      case None => None
      case Some((total, chunk)) => Some(Numbered(position, total, chunk))
  }

  /** A marked chunk carries exactly its position, the count and the chunk itself. */
  lemma MarkerRoundTrip(position: nat, total: nat, chunk: string)
    ensures ParseNumbered(Marker(position, total) + chunk) == Some(Numbered(position, total, chunk))
  {
    var p, t := NatToString(position), NatToString(total);
    var rest := t + [' '] + chunk;
    assert Marker(position, total) + chunk == p + ['/'] + rest;
    ReadNumberOf(p, '/', rest);
    ReadNumberOf(t, ' ', chunk);
  }

  /**
   * `process_tweet`: a text of at most 300 characters is one post, as it is
   * and without a marker; a longer one is packed into chunks of at most 300
   * characters (a longer sentence keeps a chunk of its own) and every chunk
   * gets its `i/N ` marker.
   */
  method ProcessTweet(tweet: string, detect: string -> Option<string>,
                      nlp: (Lang, string) -> Option<seq<string>>) returns (thread: seq<string>)
    ensures |tweet| <= MaxPostLength ==> thread == [tweet]
    ensures |tweet| > MaxPostLength ==>
              var chunks := Chunks(Pack(SplitIntoSentences(tweet, detect, nlp), MaxPostLength));
              && |thread| == |chunks|
              && forall i :: 0 <= i < |chunks| ==> thread[i] == Marker(i + 1, |chunks|) + chunks[i]
    ensures |tweet| > MaxPostLength && SplitIntoSentences(tweet, detect, nlp) == [] ==> thread == []
  {
    if |tweet| <= MaxPostLength {
      return [tweet];
    }
    var chunks := SplitIntoChunks(tweet, MaxPostLength, detect, nlp);
    thread := FormatThread(chunks);
  }
}
