/**
 * The publishing side of the pipeline (bluesky_poster.py): the word-boundary
 * splitter `split_text`, and a client that logs in and posts the pieces as
 * one reply chain.
 *
 * The remote service is the object `Server`: how it answers a session or a
 * record request is given by two functions fixed when it is made, and the
 * posts it holds are a sequence that only grows. HTTP, JSON and the
 * `createdAt` clock stamp are not modelled.
 */
module BlueskyPoster {
  import opened Wrappers
  import opened Strings

  /** The default `max_len` of `split_text`, the one `create_thread` uses. */
  const MaxPostLength: int := 300

  /** The collection and `$type` of every record. */
  const PostType: string := "app.bsky.feed.post"

  /** `{"uri": ..., "cid": ...}`: how the service names a created post. */
  datatype Ref = Ref(uri: string, cid: string)

  datatype Reply = Reply(root: Ref, parent: Ref)

  /** The record `_create_post` sends, without its `createdAt` stamp. */
  datatype PostRecord = PostRecord(text: string, reply: Option<Reply>)

  /** A `createRecord` call: the `Authorization` header, the `repo` and the record. */
  datatype Request = Request(authorization: string, repo: Option<string>, collection: string, record: PostRecord)

  /** A post the service holds: the record it was sent and the reference it answered. */
  datatype Entry = Entry(record: PostRecord, ref: Ref)

  /** The `did` and `accessJwt` a successful `createSession` answers. */
  datatype Credentials = Credentials(did: string, accessJwt: string)

  /**
   * Why a post was not created: no access token yet (in Python the
   * `"Bearer " + None` raises before any request), or the service answered
   * with an error status (`raise_for_status`).
   */
  datatype PostError = NotLoggedIn | Rejected

  // ---------------------------------------------------------------------------
  // split_text

  /**
   * Where `split_text` cuts a text longer than `maxLen`: at the last space
   * at an index in [1, maxLen), or, when there is none, at `maxLen` itself.
   */
  function CutPoint(text: string, maxLen: int): (k: int)
    requires 1 <= maxLen < |text|
    ensures 1 <= k <= maxLen
    ensures k < maxLen ==> text[k] == ' ' && forall j :: k < j < maxLen ==> text[j] != ' '
    ensures k == maxLen ==> forall j :: 1 <= j < maxLen ==> text[j] != ' '
  {
    var found := RFind(text, ' ', maxLen);
    if found <= 0 then maxLen else found
  }

  /** The pieces `split_text` returns. */
  function Pieces(text: string, maxLen: int): (pieces: seq<string>)
    requires maxLen >= 1
    ensures |pieces| >= 1
    decreases |text|
  {
    if |text| <= maxLen then [text]
    else
      var k := CutPoint(text, maxLen);
      [Strip(text[..k])] + Pieces(Strip(text[k..]), maxLen)
  }

  /** One round of `split_text`'s loop takes off the first piece. */
  lemma PiecesStep(text: string, maxLen: int, splitAt: int)
    requires 1 <= maxLen < |text|
    requires var found := RFind(text, ' ', maxLen); splitAt == if found <= 0 then maxLen else found
    ensures 1 <= splitAt <= maxLen && |Strip(text[splitAt..])| < |text|
    ensures Pieces(text, maxLen) == [Strip(text[..splitAt])] + Pieces(Strip(text[splitAt..]), maxLen)
  {
    assert splitAt == CutPoint(text, maxLen);
  }

  /** All the pieces, end to end. */
  function Concat(pieces: seq<string>): string {
    if pieces == [] then "" else pieces[0] + Concat(pieces[1..])
  }

  /** Every piece fits in `maxLen`; a text that already fits is the one piece, unstripped. */
  lemma {:induction false} PiecesFit(text: string, maxLen: int)
    requires maxLen >= 1
    ensures forall i :: 0 <= i < |Pieces(text, maxLen)| ==> |Pieces(text, maxLen)[i]| <= maxLen
    ensures |text| <= maxLen ==> Pieces(text, maxLen) == [text]
    decreases |text|
  {
    if |text| > maxLen {
      var k := CutPoint(text, maxLen);
      PiecesFit(Strip(text[k..]), maxLen);
    }
  }

  lemma ConcatCons(piece: string, pieces: seq<string>)
    ensures Concat([piece] + pieces) == piece + Concat(pieces)
  {
    assert ([piece] + pieces)[1..] == pieces;
  }

  /**
   * Only white space is lost: the other characters of the text appear
   * across the pieces in their order, none dropped and none repeated.
   */
  lemma {:induction false} PiecesKeepNonSpace(text: string, maxLen: int)
    requires maxLen >= 1
    ensures NonSpace(Concat(Pieces(text, maxLen))) == NonSpace(text)
    decreases |text|
  {
    if |text| <= maxLen {
      ConcatCons(text, []);
      assert [text] + [] == [text] == Pieces(text, maxLen);
      assert text + Concat([]) == text;
    } else {
      var k := CutPoint(text, maxLen);
      var head, tail := text[..k], text[k..];
      assert text == head + tail;
      var rest := Pieces(Strip(tail), maxLen);
      PiecesKeepNonSpace(Strip(tail), maxLen);
      ConcatCons(Strip(head), rest);
      NonSpaceAppend(Strip(head), Concat(rest));
      StripKeepsNonSpace(head);
      StripKeepsNonSpace(tail);
      NonSpaceAppend(head, tail);
    }
  }

  /**
   * A text that does not start with white space gives no empty piece
   * except possibly the last: after the first cut the rest is stripped, so
   * every later cut keeps at least one non-space character.
   */
  lemma {:induction false} PiecesNonEmpty(text: string, maxLen: int)
    requires maxLen >= 1
    requires text == [] || !IsSpace(text[0])
    ensures forall i :: 0 <= i < |Pieces(text, maxLen)| - 1 ==> Pieces(text, maxLen)[i] != []
    decreases |text|
  {
    if |text| > maxLen {
      var k := CutPoint(text, maxLen);
      var head, tail := text[..k], Strip(text[k..]);
      StripEnds(text[k..]);
      PiecesNonEmpty(tail, maxLen);
      StripKeepsNonSpace(head);
      assert head == [head[0]] + head[1..];
      NonSpaceAppend([head[0]], head[1..]);
      assert NonSpace(head) != [];
      var pieces := Pieces(text, maxLen);
      assert pieces == [Strip(head)] + Pieces(tail, maxLen);
      forall i | 0 <= i < |pieces| - 1
        ensures pieces[i] != []
      {
        if i > 0 {
          assert pieces[i] == Pieces(tail, maxLen)[i - 1];
        }
      }
    }
  }

  /** Text ending in white space past the limit gives an empty last piece. */
  lemma TrailingSpaceGivesEmptyPiece()
    ensures Pieces("abc    ", 3) == ["abc", ""]
  {
    var text := "abc    ";
    assert RFind(text, ' ', 3) == -1;
    assert CutPoint(text, 3) == 3;
    assert text[..3] == "abc" && text[3..] == "    ";
    assert Strip("abc") == "abc";
    assert Strip("    ") == "";
  }

  // ---------------------------------------------------------------------------
  // The remote service

  class Server {
    /** How the service answers `createSession` for an identifier and password. */
    const sessionFor: (string, string) -> Option<Credentials>
    /** How the service answers `createRecord`, given the posts it already holds. */
    const answer: (seq<Entry>, Request) -> Option<Ref>
    /** The posts created so far, oldest first. Nothing ever removes one. */
    var posts: seq<Entry>

    constructor (sessionFor: (string, string) -> Option<Credentials>, answer: (seq<Entry>, Request) -> Option<Ref>)
      ensures this.sessionFor == sessionFor && this.answer == answer && posts == []
    {
      this.sessionFor := sessionFor;
      this.answer := answer;
      posts := [];
    }

    /** `com.atproto.repo.createRecord`: a created post is added to the log. */
    method CreateRecord(request: Request) returns (created: Option<Ref>)
      modifies this
      ensures created == answer(old(posts), request)
      ensures posts == if created.Some? then old(posts) + [Entry(request.record, created.value)] else old(posts)
    {
      created := answer(posts, request);
      if created.Some? {
        posts := posts + [Entry(request.record, created.value)];
      }
    }
  }

  // ---------------------------------------------------------------------------
  // Reply chains

  /**
   * The record of a post: a reply to `parent` within the thread of `root`
   * when both are given, a post of its own otherwise.
   */
  function BuildRecord(text: string, parent: Option<Ref>, root: Option<Ref>): (record: PostRecord)
    ensures record.text == text
    ensures record.reply.Some? <==> parent.Some? && root.Some?
    ensures record.reply.Some? ==> record.reply.value == Reply(root.value, parent.value)
  {
    PostRecord(text, if parent.Some? && root.Some? then Some(Reply(root.value, parent.value)) else None)
  }

  /**
   * `posted` is a thread of the first `|posted|` chunks: post i carries
   * chunk i; post 0 replies to nothing; every later post replies to the post
   * before it, within the thread rooted at post 0.
   */
  ghost predicate ThreadChain(chunks: seq<string>, posted: seq<Entry>) {
    && |posted| <= |chunks|
    && (forall i :: 0 <= i < |posted| ==> posted[i].record.text == chunks[i])
    && (|posted| > 0 ==> posted[0].record.reply == None)
    && (forall i :: 1 <= i < |posted| ==> posted[i].record.reply == Some(Reply(posted[0].ref, posted[i - 1].ref)))
  }

  function Refs(posted: seq<Entry>): (refs: seq<Ref>)
    ensures |refs| == |posted|
    ensures forall i :: 0 <= i < |posted| ==> refs[i] == posted[i].ref
  {
    seq(|posted|, i requires 0 <= i < |posted| => posted[i].ref)
  }

  /** The root a reply after `posted` names: the first post, if any. */
  function FirstRef(posted: seq<Entry>): Option<Ref> {
    if posted == [] then None else Some(posted[0].ref)
  }

  /** The parent a reply after `posted` names: the last post, if any. */
  function LastRef(posted: seq<Entry>): Option<Ref> {
    if posted == [] then None else Some(posted[|posted| - 1].ref)
  }

  lemma RefsSnoc(posted: seq<Entry>, e: Entry)
    ensures Refs(posted + [e]) == Refs(posted) + [e.ref]
  {
    var a, b := Refs(posted + [e]), Refs(posted) + [e.ref];
    assert |a| == |b|;
    forall i | 0 <= i < |a|
      ensures a[i] == b[i]
    {
      if i < |posted| {
        assert (posted + [e])[i] == posted[i];
      }
    }
  }

  function Texts(posted: seq<Entry>): (texts: seq<string>)
    ensures |texts| == |posted|
    ensures forall i :: 0 <= i < |posted| ==> texts[i] == posted[i].record.text
  {
    seq(|posted|, i requires 0 <= i < |posted| => posted[i].record.text)
  }

  /**
   * A thread posted in full from `text` says what `text` says: each post
   * fits in the limit, and its posts, read in order, hold every non-space
   * character of `text` once and in order.
   */
  lemma CompleteThreadKeepsText(text: string, posted: seq<Entry>)
    requires ThreadChain(Pieces(text, MaxPostLength), posted)
    requires |posted| == |Pieces(text, MaxPostLength)|
    ensures Texts(posted) == Pieces(text, MaxPostLength)
    ensures forall i :: 0 <= i < |posted| ==> |posted[i].record.text| <= MaxPostLength
    ensures NonSpace(Concat(Texts(posted))) == NonSpace(text)
  {
    PiecesFit(text, MaxPostLength);
    PiecesKeepNonSpace(text, MaxPostLength);
  }

  /** The `createRecord` request `_create_post` sends for `record` with the session's token and `did`. */
  function PostRequest(token: string, did: Option<string>, record: PostRecord): Request {
    Request("Bearer " + token, did, PostType, record)
  }

  /**
   * Every post in `posted` is the service's answer to the request for its
   * record, made after the posts in `before` and those before it in `posted`.
   */
  ghost predicate AnsweredBy(answer: (seq<Entry>, Request) -> Option<Ref>, token: string, did: Option<string>,
                             before: seq<Entry>, posted: seq<Entry>)
    decreases |posted|
  {
    posted == [] ||
    var n := |posted| - 1;
    && AnsweredBy(answer, token, did, before, posted[..n])
    && answer(before + posted[..n], PostRequest(token, did, posted[n].record)) == Some(posted[n].ref)
  }

  lemma AnsweredBySnoc(answer: (seq<Entry>, Request) -> Option<Ref>, token: string, did: Option<string>,
                       before: seq<Entry>, posted: seq<Entry>, e: Entry)
    requires AnsweredBy(answer, token, did, before, posted)
    requires answer(before + posted, PostRequest(token, did, e.record)) == Some(e.ref)
    ensures AnsweredBy(answer, token, did, before, posted + [e])
  {
    assert (posted + [e])[..|posted|] == posted;
  }

  /**
   * Read post by post: post i's reference is what the service answered to
   * the request for post i's record, with the posts before it in place.
   */
  lemma {:induction false} AnsweredByEach(answer: (seq<Entry>, Request) -> Option<Ref>, token: string,
                                          did: Option<string>, before: seq<Entry>, posted: seq<Entry>)
    requires AnsweredBy(answer, token, did, before, posted)
    ensures forall i :: 0 <= i < |posted| ==>
              answer(before + posted[..i], PostRequest(token, did, posted[i].record)) == Some(posted[i].ref)
    decreases |posted|
  {
    if posted != [] {
      var n := |posted| - 1;
      AnsweredByEach(answer, token, did, before, posted[..n]);
      forall i | 0 <= i < n
        ensures posted[..n][..i] == posted[..i] && posted[..n][i] == posted[i]
      {
      }
    }
  }

  /** Posting the next chunk as a reply to the last post, in the thread of the first, extends the chain. */
  lemma ThreadChainSnoc(chunks: seq<string>, posted: seq<Entry>, e: Entry)
    requires ThreadChain(chunks, posted) && |posted| < |chunks|
    requires e.record == BuildRecord(chunks[|posted|], LastRef(posted), FirstRef(posted))
    ensures ThreadChain(chunks, posted + [e])
  {
    var p := posted + [e];
    forall i | 1 <= i < |p|
      ensures p[i].record.reply == Some(Reply(p[0].ref, p[i - 1].ref))
    {
      assert p[i - 1] == posted[i - 1] && p[0] == posted[0];
    }
  }

  // ---------------------------------------------------------------------------
  // The client

  class BlueskyClient {
    const pdsUrl: string
    /** The service at `pdsUrl`. */
    const server: Server
    /** `self.session`: the `did` and `accessJwt`, both `None` until a login succeeds. */
    var session: map<string, Option<string>>

    ghost predicate Valid()
      reads this
    {
      "did" in session && "accessJwt" in session
    }

    constructor (server: Server, pdsUrl: string := "https://bsky.social")
      ensures Valid() && this.server == server && this.pdsUrl == pdsUrl
      ensures session == map["did" := None, "accessJwt" := None]
    {
      this.pdsUrl := pdsUrl;
      this.server := server;
      session := map["did" := None, "accessJwt" := None];
    }

    /** `login`: on success the session holds the service's `did` and `accessJwt`. */
    method Login(handle: string, password: string) returns (ok: bool)
      requires Valid()
      modifies this
      ensures Valid()
      ensures ok == server.sessionFor(handle, password).Some?
      ensures ok ==> var c := server.sessionFor(handle, password).value;
                     session == old(session)["did" := Some(c.did)]["accessJwt" := Some(c.accessJwt)]
      ensures !ok ==> session == old(session)
    {
      var answer := server.sessionFor(handle, password);
      if answer.None? {
        return false;
      }
      session := session["did" := Some(answer.value.did)]["accessJwt" := Some(answer.value.accessJwt)];
      ok := true;
    }

    /**
     * `_create_post`: sends one record, a reply when both references are
     * given. A created post is added to the service's posts; a failure
     * creates nothing.
     */
    method CreatePost(text: string, parent: Option<Ref>, root: Option<Ref>) returns (r: Result<Ref, PostError>)
      requires Valid()
      modifies server
      ensures session["accessJwt"].None? ==> r == Failure(NotLoggedIn)
      ensures session["accessJwt"].Some? ==>
                var request := PostRequest(session["accessJwt"].value, session["did"], BuildRecord(text, parent, root));
                r == (if server.answer(old(server.posts), request).Some?
                      then Success(server.answer(old(server.posts), request).value) else Failure(Rejected))
      ensures r.Success? ==> server.posts == old(server.posts) + [Entry(BuildRecord(text, parent, root), r.value)]
      ensures r.Failure? ==> server.posts == old(server.posts)
    {
      var record := BuildRecord(text, parent, root);
      if session["accessJwt"].None? {
        return Failure(NotLoggedIn);
      }
      var request := PostRequest(session["accessJwt"].value, session["did"], record);
      var created := server.CreateRecord(request);
      if created.None? {
        return Failure(Rejected);
      }
      r := Success(created.value);
    }

    /** `split_text`: cuts at word boundaries into pieces of at most `maxLen` characters. */
    static method SplitText(text: string, maxLen: int) returns (chunks: seq<string>)
      requires maxLen >= 1
      ensures chunks == Pieces(text, maxLen)
    {
      chunks := [];
      var rest := text;
      while |rest| > maxLen
        invariant chunks + Pieces(rest, maxLen) == Pieces(text, maxLen)
        decreases |rest|
      {
        var splitAt := RFind(rest, ' ', maxLen);
        if splitAt <= 0 {
          splitAt := maxLen;
        }
        PiecesStep(rest, maxLen, splitAt);
        var piece, next := Strip(rest[..splitAt]), Strip(rest[splitAt..]);
        AppendAssoc(chunks, [piece], Pieces(next, maxLen));
        chunks := chunks + [piece];
        rest := next;
      }
      chunks := chunks + [rest];
    }

    /**
     * `create_thread`: posts the pieces of `text` in order as one reply
     * chain and answers their references. The first failure stops it; the
     * posts already created stay (no rollback).
     */
    method CreateThread(text: string) returns (result: Result<seq<Ref>, PostError>)
      requires Valid()
      modifies server
      ensures |old(server.posts)| <= |server.posts| && server.posts[..|old(server.posts)|] == old(server.posts)
      ensures var chunks, posted := Pieces(text, MaxPostLength), server.posts[|old(server.posts)|..];
              && ThreadChain(chunks, posted)
              && (result.Success? ==> |posted| == |chunks| && result.value == Refs(posted))
              && (result.Failure? ==> |posted| < |chunks|)
      ensures session["accessJwt"].None? ==> result == Failure(NotLoggedIn) && server.posts == old(server.posts)
      ensures session["accessJwt"].Some? ==>
                AnsweredBy(server.answer, session["accessJwt"].value, session["did"],
                           old(server.posts), server.posts[|old(server.posts)|..])
      ensures result.Failure? && session["accessJwt"].Some? ==>
                var chunks, posted := Pieces(text, MaxPostLength), server.posts[|old(server.posts)|..];
                && |posted| < |chunks|
                && result.error == Rejected
                && server.answer(server.posts, PostRequest(session["accessJwt"].value, session["did"],
                                                           BuildRecord(chunks[|posted|], LastRef(posted), FirstRef(posted)))) == None
    {
      var chunks := SplitText(text, MaxPostLength);
      if chunks == [] {
        assert false;
      }
      var threadRefs: seq<Ref> := [];
      var rootRef: Option<Ref> := None;
      var parentRef: Option<Ref> := None;
      ghost var before := server.posts;
      ghost var posted: seq<Entry> := [];
      for idx := 0 to |chunks|
        invariant server.posts == before + posted
        invariant |posted| == idx
        invariant ThreadChain(chunks, posted)
        invariant threadRefs == Refs(posted)
        invariant rootRef == FirstRef(posted) && parentRef == LastRef(posted)
        invariant session["accessJwt"].None? ==> idx == 0
        invariant session["accessJwt"].Some? ==> AnsweredBy(server.answer, session["accessJwt"].value, session["did"], before, posted)
      {
        var response;
        if idx == 0 {
          response := CreatePost(chunks[idx], None, None);
        } else {
          response := CreatePost(chunks[idx], parentRef, rootRef);
        }
        ghost var record := BuildRecord(chunks[idx], parentRef, rootRef);
        if response.Failure? {
          assert server.posts[|before|..] == posted;
          return Failure(response.error);
        }
        var newRef := response.value;
        if idx == 0 {
          rootRef := Some(newRef);
        }
        parentRef := Some(newRef);
        ghost var entry := Entry(record, newRef);
        RefsSnoc(posted, entry);
        ThreadChainSnoc(chunks, posted, entry);
        AppendAssoc(before, posted, [entry]);
        if session["accessJwt"].Some? {
          AnsweredBySnoc(server.answer, session["accessJwt"].value, session["did"], before, posted, entry);
        }
        threadRefs := threadRefs + [newRef];
        posted := posted + [entry];
      }
      assert server.posts[|before|..] == posted;
      result := Success(threadRefs);
    }
  }
}
