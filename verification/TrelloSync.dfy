/**
 The two-sided sync of an issue and its card: it settles after two runs, and never mirrors back what it
 mirrored itself.
 */
module TrelloSync {
  import opened Outcomes

  /** A comment on either side; `mirrored` tells whether the sync posted it. */
  datatype Comment = Comment(author: string, text: string, mirrored: bool)

  /** What happened on a card: a comment, a move to a list (by name), or a change of the completion mark. */
  datatype Action = Said(comment: Comment) | Moved(author: string, list: string) | Marked

  /** The issue (comments oldest first) and the card (actions newest first). */
  datatype State = State(closed: bool, complete: bool, list: string, comments: seq<Comment>, actions: seq<Action>)

  /** The lists of the board by id, and the names the sync posts under. */
  datatype Board = Board(lists: seq<(string, string)>, githubUser: string, trelloUser: string)

  /** A writing call of the sync. */
  datatype Call =
    | UpdateCard(complete: bool, list: Option<string>)
    | CloseIssue
    | PostToIssue(text: string)
    | PostToCard(text: string)

  const FROM_GITHUB := "**"
  const FROM_TRELLO := "**[Trello]"

  /** `name.lower() == 'done'`. */
  predicate IsDone(name: string) {
    && |name| == 4
    && name[0] in {'d', 'D'} && name[1] in {'o', 'O'} && name[2] in {'n', 'N'} && name[3] in {'e', 'E'}
  }

  /** The first list whose name is "Done" in any case. */
  function DoneList(lists: seq<(string, string)>): (r: Option<(string, string)>)
    ensures r.Some? ==> IsDone(r.value.1)
  {
    if lists == [] then None else if IsDone(lists[0].1) then Some(lists[0]) else DoneList(lists[1..])
  }

  // ---------- state ----------

  /** Step 1 of `sync_card`: the new state of issue and card, and the calls made. */
  function SyncState(b: Board, s: State): (State, seq<Call>) {
    var done := DoneList(b.lists);
    var move := if done.Some? && s.list != done.value.0 then done else None;
    var target := if move.Some? then Some(move.value.0) else None;
    if s.closed && !s.complete then
      (Updated(b, s, move, true), [UpdateCard(true, target)])
    else if s.complete && !s.closed then
      (s.(closed := true), [CloseIssue])
    else if s.closed && move.Some? then
      (Updated(b, s, move, false), [UpdateCard(false, target)])
    else (s, [])
  }

  /** `update_trello_card`; what the update changes shows among the card's actions. */
  function Updated(b: Board, s: State, move: Option<(string, string)>, complete: bool): State {
    var marked := if complete then s.(complete := true, actions := [Marked] + s.actions) else s;
    if move.Some? then
      marked.(list := move.value.0, actions := [Moved(b.trelloUser, move.value.1)] + marked.actions)
    else marked
  }

  // ---------- comments ----------

  function MoveText(author: string, list: string): (t: string)
    ensures FROM_TRELLO <= t
  {
    FROM_TRELLO + (" " + author + " moved this card to list \"" + list + "\"**")
  }

  function TrelloText(c: Comment): (t: string)
    ensures FROM_TRELLO <= t
  {
    FROM_TRELLO + (" " + c.author + " wrote:**\n\n" + c.text)
  }

  function GitHubText(c: Comment): (t: string)
    ensures FROM_GITHUB <= t
  {
    FROM_GITHUB + (c.author + " wrote on GitHub:**\n\n" + c.text)
  }

  function Texts(comments: seq<Comment>): (t: seq<string>)
    ensures |t| == |comments| && forall i :: 0 <= i < |t| ==> t[i] == comments[i].text
  {
    seq(|comments|, i requires 0 <= i < |comments| => comments[i].text)
  }

  function Comments(actions: seq<Action>): seq<Comment> {
    if actions == [] then []
    else (if actions[0].Said? then [actions[0].comment] else []) + Comments(actions[1..])
  }

  function LatestMove(actions: seq<Action>): (r: Option<Action>)
    ensures r.Some? ==> r.value.Moved?
  {
    if actions == [] then None else if actions[0].Moved? then Some(actions[0]) else LatestMove(actions[1..])
  }

  /** The comment on the latest move, unless it is there already or the issue was closed and the list is "Done". */
  function MovePosts(actions: seq<Action>, closed: bool, texts: seq<string>): seq<string> {
    var move := LatestMove(actions);
    if move.None? || (IsDone(move.value.list) && closed) then []
    else
      var text := MoveText(move.value.author, move.value.list);
      if text in texts then [] else [text]
  }

  datatype Post = Post(source: Comment, text: string)

  /** The card's comments that the issue lacks, newest first. */
  function IssuePosts(actions: seq<Action>, texts: seq<string>): seq<Post> {
    if actions == [] then []
    else if actions[0].Said? && !(FROM_GITHUB <= actions[0].comment.text)
            && TrelloText(actions[0].comment) !in texts
    then
      var text := TrelloText(actions[0].comment);
      [Post(actions[0].comment, text)] + IssuePosts(actions[1..], texts + [text])
    else IssuePosts(actions[1..], texts)
  }

  /** The issue's comments that the card lacked when it was fetched. */
  function CardPosts(comments: seq<Comment>, texts: seq<string>): seq<Post> {
    if comments == [] then []
    else
      var rest := CardPosts(comments[1..], texts);
      if !(FROM_TRELLO <= comments[0].text) && GitHubText(comments[0]) !in texts
      then [Post(comments[0], GitHubText(comments[0]))] + rest else rest
  }

  function PostTexts(posts: seq<Post>): (t: seq<string>)
    ensures |t| == |posts| && forall i :: 0 <= i < |t| ==> t[i] == posts[i].text
  {
    seq(|posts|, i requires 0 <= i < |posts| => posts[i].text)
  }

  function PostedToIssue(b: Board, texts: seq<string>): (c: seq<Comment>)
    ensures |c| == |texts| && forall i :: 0 <= i < |c| ==> c[i] == Comment(b.githubUser, texts[i], true)
  {
    seq(|texts|, i requires 0 <= i < |texts| => Comment(b.githubUser, texts[i], true))
  }

  /** Comments posted to the card show newest first. */
  function PostedToCard(b: Board, texts: seq<string>): seq<Action> {
    if texts == [] then [] else PostedToCard(b, texts[1..]) + [Said(Comment(b.trelloUser, texts[0], true))]
  }

  /** What one run posts to the issue (the latest move, then comments) and to the card. */
  datatype Posts = Posts(move: seq<string>, toIssue: seq<Post>, toCard: seq<Post>)

  function PostsOf(b: Board, s: State): Posts {
    var now := SyncState(b, s).0;
    var texts := Texts(now.comments);
    var move := MovePosts(now.actions, s.closed, texts);
    Posts(move, IssuePosts(now.actions, texts + move), CardPosts(now.comments, Texts(Comments(now.actions))))
  }

  function IssueCalls(texts: seq<string>): (c: seq<Call>)
    ensures |c| == |texts| && forall i :: 0 <= i < |c| ==> c[i] == PostToIssue(texts[i])
  {
    seq(|texts|, i requires 0 <= i < |texts| => PostToIssue(texts[i]))
  }

  function CardCalls(texts: seq<string>): (c: seq<Call>)
    ensures |c| == |texts| && forall i :: 0 <= i < |c| ==> c[i] == PostToCard(texts[i])
  {
    seq(|texts|, i requires 0 <= i < |texts| => PostToCard(texts[i]))
  }

  /** One run of `sync_card`: the state after it and its writing calls. */
  function Sync(b: Board, s: State): (State, seq<Call>) {
    var (now, calls) := SyncState(b, s);
    var posts := PostsOf(b, s);
    var issueTexts, cardTexts := posts.move + PostTexts(posts.toIssue), PostTexts(posts.toCard);
    (now.(comments := now.comments + PostedToIssue(b, issueTexts), actions := PostedToCard(b, cardTexts) + now.actions),
     calls + IssueCalls(issueTexts) + CardCalls(cardTexts))
  }

  // ---------- the run, step by step ----------

  lemma {:induction false} PostedLast(b: Board, texts: seq<string>, text: string)
    ensures PostedToCard(b, texts + [text]) == [Said(Comment(b.trelloUser, text, true))] + PostedToCard(b, texts)
  {
    if texts == [] {
      assert texts + [text] == [text];
    } else {
      assert (texts + [text])[1..] == texts[1..] + [text];
      PostedLast(b, texts[1..], text);
    }
  }

  lemma PostedTwice(b: Board, before: seq<Comment>, x: seq<string>, y: seq<string>)
    ensures before + PostedToIssue(b, x) + PostedToIssue(b, y) == before + PostedToIssue(b, x + y)
  {
  }

  lemma CalledTwice(before: seq<Call>, calls: seq<Call>, x: seq<string>, y: seq<string>, z: seq<string>)
    ensures before + calls + IssueCalls(x) + IssueCalls(y) + CardCalls(z) ==
            before + (calls + IssueCalls(x + y) + CardCalls(z))
  {
    assert IssueCalls(x + y) == IssueCalls(x) + IssueCalls(y);
  }

  lemma PostedOne(b: Board, before: seq<Comment>, calls: seq<Call>, texts: seq<string>, text: string)
    ensures before + PostedToIssue(b, texts) + [Comment(b.githubUser, text, true)]
            == before + PostedToIssue(b, texts + [text])
    ensures calls + IssueCalls(texts) + [PostToIssue(text)] == calls + IssueCalls(texts + [text])
  {
  }

  lemma PostedOneToCard(b: Board, before: seq<Action>, calls: seq<Call>, texts: seq<string>, text: string)
    ensures [Said(Comment(b.trelloUser, text, true))] + (PostedToCard(b, texts) + before) ==
            PostedToCard(b, texts + [text]) + before
    ensures calls + CardCalls(texts) + [PostToCard(text)] == calls + CardCalls(texts + [text])
  {
    PostedLast(b, texts, text);
  }

  lemma CardStep(posted: seq<string>, comment: Comment, rest: seq<Comment>, texts: seq<string>)
    ensures var post := !(FROM_TRELLO <= comment.text) && GitHubText(comment) !in texts;
            posted + PostTexts(CardPosts([comment] + rest, texts)) ==
            (if post then posted + [GitHubText(comment)] else posted) + PostTexts(CardPosts(rest, texts))
  {
    assert ([comment] + rest)[1..] == rest;
    if !(FROM_TRELLO <= comment.text) && GitHubText(comment) !in texts {
      assert PostTexts(CardPosts([comment] + rest, texts)) == [GitHubText(comment)] + PostTexts(CardPosts(rest, texts));
    }
  }

  lemma IssueStep(posted: seq<string>, action: Action, rest: seq<Action>, known: seq<string>)
    ensures var post := action.Said? && !(FROM_GITHUB <= action.comment.text) && TrelloText(action.comment) !in known;
            posted + PostTexts(IssuePosts([action] + rest, known)) ==
            if post then
              var text := TrelloText(action.comment);
              posted + [text] + PostTexts(IssuePosts(rest, known + [text]))
            else posted + PostTexts(IssuePosts(rest, known))
  {
    assert ([action] + rest)[1..] == rest;
    if action.Said? && !(FROM_GITHUB <= action.comment.text) && TrelloText(action.comment) !in known {
      var more := IssuePosts(rest, known + [TrelloText(action.comment)]);
      assert PostTexts(IssuePosts([action] + rest, known)) == [TrelloText(action.comment)] + PostTexts(more);
    }
  }

  class Trackers {
    const board: Board
    var closed: bool
    var complete: bool
    var list: string
    var comments: seq<Comment>
    var actions: seq<Action>
    var calls: seq<Call>

    function Now(): State
      reads this
    {
      State(closed, complete, list, comments, actions)
    }

    /** `update_github_issue_state(..., 'closed')`. */
    method CloseTheIssue()
      modifies this`closed, this`calls
      ensures closed && calls == old(calls) + [CloseIssue]
    {
      closed, calls := true, calls + [CloseIssue];
    }

    /** `update_trello_card`. */
    method UpdateTheCard(nowComplete: bool, move: Option<(string, string)>)
      modifies this`complete, this`list, this`actions, this`calls
      ensures Now() == Updated(board, old(Now()), move, nowComplete)
      ensures calls == old(calls) + [UpdateCard(nowComplete, if move.Some? then Some(move.value.0) else None)]
    {
      calls := calls + [UpdateCard(nowComplete, if move.Some? then Some(move.value.0) else None)];
      if nowComplete {
        complete, actions := true, [Marked] + actions;
      }
      if move.Some? {
        list, actions := move.value.0, [Moved(board.trelloUser, move.value.1)] + actions;
      }
    }

    /** `add_comment_to_github`. */
    method CommentOnIssue(text: string)
      modifies this`comments, this`calls
      ensures comments == old(comments) + [Comment(board.githubUser, text, true)]
      ensures calls == old(calls) + [PostToIssue(text)]
    {
      comments, calls := comments + [Comment(board.githubUser, text, true)], calls + [PostToIssue(text)];
    }

    /** `add_comment_to_trello`. */
    method CommentOnCard(text: string)
      modifies this`actions, this`calls
      ensures actions == [Said(Comment(board.trelloUser, text, true))] + old(actions)
      ensures calls == old(calls) + [PostToCard(text)]
    {
      actions, calls := [Said(Comment(board.trelloUser, text, true))] + actions, calls + [PostToCard(text)];
    }

    /** Step 1 of `sync_card`. */
    method SyncTheState()
      modifies this`closed, this`complete, this`list, this`actions, this`calls
      ensures Now() == SyncState(board, old(Now())).0 && calls == old(calls) + SyncState(board, old(Now())).1
    {
      var done: Option<(string, string)> := None;
      var i := 0;
      while i < |board.lists| && done.None?
        invariant i <= |board.lists|
        invariant DoneList(board.lists) == if done.Some? then done else DoneList(board.lists[i..])
        decreases |board.lists| - i, done.None?
      {
        assert board.lists[i..][1..] == board.lists[i + 1..];
        if IsDone(board.lists[i].1) {
          done := Some(board.lists[i]);
        }
        i := i + 1;
      }
      if closed && !complete {
        UpdateTheCard(true, if done.Some? && list != done.value.0 then done else None);
      } else if complete && !closed {
        CloseTheIssue();
      } else if closed && done.Some? && list != done.value.0 {
        UpdateTheCard(false, done);
      }
    }

    /** Step 3A: the comment on the latest move. */
    method SyncMove(history: seq<Action>, wasClosed: bool, texts: seq<string>) returns (posted: seq<string>)
      modifies this`comments, this`calls
      ensures posted == MovePosts(history, wasClosed, texts)
      ensures comments == old(comments) + PostedToIssue(board, posted) && calls == old(calls) + IssueCalls(posted)
    {
      posted := [];
      var latest: Option<Action> := None;
      var i := 0;
      while i < |history| && latest.None?
        invariant i <= |history|
        invariant LatestMove(history) == if latest.Some? then latest else LatestMove(history[i..])
        decreases |history| - i, latest.None?
      {
        assert history[i..][1..] == history[i + 1..];
        if history[i].Moved? {
          latest := Some(history[i]);
        }
        i := i + 1;
      }
      if latest.Some? && !(IsDone(latest.value.list) && wasClosed) {
        var text := MoveText(latest.value.author, latest.value.list);
        if text !in texts {
          CommentOnIssue(text);
          posted := [text];
        }
      }
      assert comments == old(comments) + PostedToIssue(board, posted);
      assert calls == old(calls) + IssueCalls(posted);
    }

    /** Step 3C: the card's comments go to the issue. */
    method SyncToIssue(history: seq<Action>, texts: seq<string>) returns (posted: seq<string>)
      modifies this`comments, this`calls
      ensures posted == PostTexts(IssuePosts(history, texts))
      ensures comments == old(comments) + PostedToIssue(board, posted) && calls == old(calls) + IssueCalls(posted)
    {
      posted := [];
      var known := texts;
      for i := 0 to |history|
        invariant posted + PostTexts(IssuePosts(history[i..], known)) == PostTexts(IssuePosts(history, texts))
        invariant comments == old(comments) + PostedToIssue(board, posted) && calls == old(calls) + IssueCalls(posted)
      {
        var action := history[i];
        assert history[i..] == [action] + history[i + 1..];
        IssueStep(posted, action, history[i + 1..], known);
        if action.Said? && !(FROM_GITHUB <= action.comment.text) {
          var text := TrelloText(action.comment);
          if text !in known {
            CommentOnIssue(text);
            PostedOne(board, old(comments), old(calls), posted, text);
            posted, known := posted + [text], known + [text];
          }
        }
      }
    }

    /** Step 4: the issue's comments go to the card. */
    method SyncToCard(fetched: seq<Comment>, texts: seq<string>) returns (posted: seq<string>)
      modifies this`actions, this`calls
      ensures posted == PostTexts(CardPosts(fetched, texts))
      ensures actions == PostedToCard(board, posted) + old(actions) && calls == old(calls) + CardCalls(posted)
    {
      posted := [];
      for i := 0 to |fetched|
        invariant posted + PostTexts(CardPosts(fetched[i..], texts)) == PostTexts(CardPosts(fetched, texts))
        invariant actions == PostedToCard(board, posted) + old(actions) && calls == old(calls) + CardCalls(posted)
      {
        var comment := fetched[i];
        assert fetched[i..] == [comment] + fetched[i + 1..];
        CardStep(posted, comment, fetched[i + 1..], texts);
        if !(FROM_TRELLO <= comment.text) {
          var text := GitHubText(comment);
          if text !in texts {
            CommentOnCard(text);
            PostedOneToCard(board, old(actions), old(calls), posted, text);
            posted := posted + [text];
          }
        }
      }
    }

    /** `sync_card`. */
    method SyncCard()
      modifies this
      ensures Now() == Sync(board, old(Now())).0 && calls == old(calls) + Sync(board, old(Now())).1
    {
      var wasClosed := closed;
      ghost var before := Now();
      SyncTheState();
      var fetched, history := comments, actions;
      var cardTexts, issueTexts := Texts(Comments(history)), Texts(fetched);
      var move := SyncMove(history, wasClosed, issueTexts);
      var toIssue := SyncToIssue(history, issueTexts + move);
      var toCard := SyncToCard(fetched, cardTexts);
      PostedTwice(board, fetched, move, toIssue);
      CalledTwice(old(calls), SyncState(board, before).1, move, toIssue, toCard);
    }
  }

  // ---------- settling ----------

  /** Every comment of the card that is to be mirrored is among the issue's texts. */
  ghost predicate OnIssue(comments: seq<Comment>, texts: seq<string>) {
    forall i :: 0 <= i < |comments| && !(FROM_GITHUB <= comments[i].text) ==> TrelloText(comments[i]) in texts
  }

  ghost predicate OnCard(comments: seq<Comment>, texts: seq<string>) {
    forall i :: 0 <= i < |comments| && !(FROM_TRELLO <= comments[i].text) ==> GitHubText(comments[i]) in texts
  }

  /** The latest move is on the issue, or need not be. */
  predicate MoveOnIssue(actions: seq<Action>, closed: bool, texts: seq<string>) {
    MovePosts(actions, closed, texts) == []
  }

  lemma OnIssueCons(action: Action, rest: seq<Action>, texts: seq<string>)
    requires OnIssue(Comments(rest), texts)
    requires action.Said? && !(FROM_GITHUB <= action.comment.text) ==> TrelloText(action.comment) in texts
    ensures OnIssue(Comments([action] + rest), texts)
  {
    assert ([action] + rest)[1..] == rest;
  }

  lemma {:induction false} IssuePostsCover(actions: seq<Action>, texts: seq<string>)
    ensures OnIssue(Comments(actions), texts + PostTexts(IssuePosts(actions, texts)))
  {
    if actions != [] {
      var action, rest := actions[0], actions[1..];
      var all := texts + PostTexts(IssuePosts(actions, texts));
      assert actions == [action] + rest;
      IssueStep(texts, action, rest, texts);
      if action.Said? && !(FROM_GITHUB <= action.comment.text) && TrelloText(action.comment) !in texts {
        IssuePostsCover(rest, texts + [TrelloText(action.comment)]);
        assert all[|texts|] == TrelloText(action.comment);
      } else {
        IssuePostsCover(rest, texts);
        assert forall t :: t in texts ==> t in all;
      }
      OnIssueCons(action, rest, all);
    }
  }

  lemma {:induction false} IssuePostsNone(actions: seq<Action>, texts: seq<string>)
    requires OnIssue(Comments(actions), texts)
    ensures IssuePosts(actions, texts) == []
  {
    if actions != [] {
      var first := if actions[0].Said? then [actions[0].comment] else [];
      assert Comments(actions)[|first|..] == Comments(actions[1..]);
      if actions[0].Said? {
        assert Comments(actions)[0] == actions[0].comment;
      }
      IssuePostsNone(actions[1..], texts);
    }
  }

  lemma {:induction false} CardPostsCover(comments: seq<Comment>, texts: seq<string>)
    ensures OnCard(comments, texts + PostTexts(CardPosts(comments, texts)))
    ensures OnCard(comments, texts) ==> CardPosts(comments, texts) == []
  {
    if comments != [] {
      CardPostsCover(comments[1..], texts);
      var rest := PostTexts(CardPosts(comments[1..], texts));
      var text := GitHubText(comments[0]);
      if !(FROM_TRELLO <= comments[0].text) && text !in texts {
        assert PostTexts(CardPosts(comments, texts)) == [text] + rest;
        assert text in texts + ([text] + rest);
        assert forall t :: t in texts + rest ==> t in texts + ([text] + rest);
      }
      forall i | 0 <= i < |comments| && !(FROM_TRELLO <= comments[i].text)
        ensures GitHubText(comments[i]) in texts + PostTexts(CardPosts(comments, texts))
      {
        if i > 0 {
          assert comments[1..][i - 1] == comments[i];
        }
      }
    }
  }

  lemma {:induction false} CommentsConcat(a: seq<Action>, b: seq<Action>)
    ensures Comments(a + b) == Comments(a) + Comments(b)
  {
    if a == [] {
      assert a + b == b;
    } else {
      assert (a + b)[1..] == a[1..] + b && (a + b)[0] == a[0];
      CommentsConcat(a[1..], b);
      var first := if a[0].Said? then [a[0].comment] else [];
      assert first + (Comments(a[1..]) + Comments(b)) == first + Comments(a[1..]) + Comments(b);
    }
  }

  lemma {:induction false} PostedToCardFacts(b: Board, texts: seq<string>, actions: seq<Action>)
    ensures LatestMove(PostedToCard(b, texts) + actions) == LatestMove(actions)
    ensures forall t :: t in texts <==> t in Texts(Comments(PostedToCard(b, texts)))
    ensures forall i :: 0 <= i < |Comments(PostedToCard(b, texts))| ==>
              Comments(PostedToCard(b, texts))[i].mirrored && Comments(PostedToCard(b, texts))[i].text in texts
    decreases |texts|
  {
    if texts == [] {
      assert PostedToCard(b, texts) + actions == actions;
    } else {
      var said := [Said(Comment(b.trelloUser, texts[0], true))];
      PostedToCardFacts(b, texts[1..], said + actions);
      assert PostedToCard(b, texts) + actions == PostedToCard(b, texts[1..]) + (said + actions);
      assert (said + actions)[1..] == actions;
      CommentsConcat(PostedToCard(b, texts[1..]), said);
      assert Comments(said) == [said[0].comment] + Comments(said[1..]);
      assert texts == [texts[0]] + texts[1..];
      var before, after := Comments(PostedToCard(b, texts[1..])), Comments(PostedToCard(b, texts));
      assert after == before + [said[0].comment];
      assert Texts(after) == Texts(before) + [texts[0]];
    }
  }

  /** Step 1 writes no comment; a move that it makes is one to "Done" of a closed issue. */
  lemma StateKeeps(b: Board, s: State)
    ensures var now := SyncState(b, s).0;
            && now.comments == s.comments && Comments(now.actions) == Comments(s.actions)
            && (s.closed ==> now.closed)
            && (LatestMove(now.actions) != LatestMove(s.actions) ==>
                  s.closed && LatestMove(now.actions).Some? && IsDone(LatestMove(now.actions).value.list))
  {
    var now := SyncState(b, s).0;
    assert ([Marked] + s.actions)[1..] == s.actions;
    if now.actions != s.actions && now.actions[0].Moved? {
      assert now.actions[1..] == s.actions || now.actions[1..] == [Marked] + s.actions;
    }
  }

  lemma CoverMore(comments: seq<Comment>, posted: seq<Comment>, texts: seq<string>, all: seq<string>)
    requires forall t :: t in texts ==> t in all
    requires forall i :: 0 <= i < |posted| ==> FROM_GITHUB <= posted[i].text
    requires OnIssue(comments, texts)
    ensures OnIssue(posted + comments, all)
  {
  }

  lemma CardCoverMore(comments: seq<Comment>, posted: seq<Comment>, texts: seq<string>, all: seq<string>)
    requires forall t :: t in texts ==> t in all
    requires forall i :: 0 <= i < |posted| ==> FROM_TRELLO <= posted[i].text
    requires OnCard(comments, texts)
    ensures OnCard(comments + posted, all)
  {
  }

  lemma {:induction false} IssuePostTexts(actions: seq<Action>, texts: seq<string>, i: nat)
    requires i < |IssuePosts(actions, texts)|
    ensures var p := IssuePosts(actions, texts)[i];
            p.text == TrelloText(p.source) && p.source in Comments(actions) && !(FROM_GITHUB <= p.source.text)
  {
    if actions[0].Said? && !(FROM_GITHUB <= actions[0].comment.text) && TrelloText(actions[0].comment) !in texts {
      if i > 0 {
        IssuePostTexts(actions[1..], texts + [TrelloText(actions[0].comment)], i - 1);
      }
    } else {
      IssuePostTexts(actions[1..], texts, i);
    }
  }

  lemma {:induction false} CardPostTexts(comments: seq<Comment>, texts: seq<string>, i: nat)
    requires i < |CardPosts(comments, texts)|
    ensures var p := CardPosts(comments, texts)[i];
            p.text == GitHubText(p.source) && p.source in comments && !(FROM_TRELLO <= p.source.text)
  {
    var first := !(FROM_TRELLO <= comments[0].text) && GitHubText(comments[0]) !in texts;
    if !first || i > 0 {
      CardPostTexts(comments[1..], texts, if first then i - 1 else i);
    }
  }

  /** The texts of both sides after a run. */
  lemma AfterTexts(b: Board, s: State)
    ensures var (after, now, posts) := (Sync(b, s).0, SyncState(b, s).0, PostsOf(b, s));
            && Texts(after.comments) == Texts(now.comments) + (posts.move + PostTexts(posts.toIssue))
            && (forall t ::
                  t in Texts(Comments(now.actions)) + PostTexts(posts.toCard) <==> t in Texts(Comments(after.actions)))
            && LatestMove(after.actions) == LatestMove(now.actions)
  {
    var now, posts := SyncState(b, s).0, PostsOf(b, s);
    CardTexts(b, PostTexts(posts.toCard), now.actions);
  }

  lemma CardTexts(b: Board, texts: seq<string>, actions: seq<Action>)
    ensures forall t ::
              t in Texts(Comments(actions)) + texts <==> t in Texts(Comments(PostedToCard(b, texts) + actions))
    ensures LatestMove(PostedToCard(b, texts) + actions) == LatestMove(actions)
  {
    var posted := PostedToCard(b, texts);
    PostedToCardFacts(b, texts, actions);
    CommentsConcat(posted, actions);
    assert Texts(Comments(posted) + Comments(actions)) == Texts(Comments(posted)) + Texts(Comments(actions));
  }

  lemma PostedMarks(b: Board, comments: seq<Comment>, known: seq<string>, actions: seq<Action>)
    ensures var texts := PostTexts(CardPosts(comments, known));
            var posted := Comments(PostedToCard(b, texts));
            && Comments(PostedToCard(b, texts) + actions) == posted + Comments(actions)
            && forall i :: 0 <= i < |posted| ==> FROM_GITHUB <= posted[i].text
  {
    var texts := PostTexts(CardPosts(comments, known));
    var posted := Comments(PostedToCard(b, texts));
    PostedToCardFacts(b, texts, actions);
    CommentsConcat(PostedToCard(b, texts), actions);
    forall i | 0 <= i < |posted|
      ensures FROM_GITHUB <= posted[i].text
    {
      var j :| 0 <= j < |texts| && texts[j] == posted[i].text;
      CardPostTexts(comments, known, j);
    }
  }

  lemma IssueCovered(b: Board, s: State)
    ensures OnIssue(Comments(Sync(b, s).0.actions), Texts(Sync(b, s).0.comments))
  {
    var now, posts, after := SyncState(b, s).0, PostsOf(b, s), Sync(b, s).0;
    var texts := Texts(now.comments) + posts.move;
    var all := texts + PostTexts(posts.toIssue);
    AfterTexts(b, s);
    IssuePostsCover(now.actions, texts);
    PostedMarks(b, now.comments, Texts(Comments(now.actions)), now.actions);
    assert all == Texts(after.comments);
    CoverMore(Comments(now.actions), Comments(PostedToCard(b, PostTexts(posts.toCard))), all, all);
  }

  lemma CardCovered(b: Board, s: State)
    ensures OnCard(Sync(b, s).0.comments, Texts(Comments(Sync(b, s).0.actions)))
  {
    var now, posts, after := SyncState(b, s).0, PostsOf(b, s), Sync(b, s).0;
    var texts := Texts(Comments(now.actions));
    AfterTexts(b, s);
    CardPostsCover(now.comments, texts);
    var issueTexts := posts.move + PostTexts(posts.toIssue);
    var posted := PostedToIssue(b, issueTexts);
    forall i | 0 <= i < |posted|
      ensures FROM_TRELLO <= posted[i].text
    {
      if i >= |posts.move| {
        IssuePostTexts(now.actions, Texts(now.comments) + posts.move, i - |posts.move|);
      }
    }
    CardCoverMore(now.comments, posted, texts + PostTexts(posts.toCard), Texts(Comments(after.actions)));
  }

  lemma MoveCovered(b: Board, s: State)
    ensures MoveOnIssue(Sync(b, s).0.actions, s.closed, Texts(Sync(b, s).0.comments))
  {
    var now, posts := SyncState(b, s).0, PostsOf(b, s);
    AfterTexts(b, s);
    var texts, all := Texts(now.comments), Texts(now.comments) + (posts.move + PostTexts(posts.toIssue));
    if posts.move != [] {
      assert all[|texts|] == posts.move[0];
    }
    assert forall t :: t in texts ==> t in all;
  }

  /** From the second run on, no comment is posted on either side. */
  lemma SecondRunPostsNothing(b: Board, s: State)
    ensures PostsOf(b, Sync(b, s).0) == Posts([], [], [])
  {
    var after := Sync(b, s).0;
    var now := SyncState(b, after).0;
    IssueCovered(b, s);
    CardCovered(b, s);
    MoveCovered(b, s);
    StateKeeps(b, s);
    StateKeeps(b, after);
    var texts := Texts(now.comments);
    assert MovePosts(now.actions, after.closed, texts) == [];
    assert texts + [] == texts;
    IssuePostsNone(now.actions, texts);
    CardPostsCover(now.comments, Texts(Comments(now.actions)));
  }

  lemma NoPosts(b: Board, s: State)
    requires PostsOf(b, s) == Posts([], [], [])
    ensures Sync(b, s) == SyncState(b, s)
  {
    var (now, calls) := SyncState(b, s);
    assert PostTexts([]) == [] && Posts([], [], []).move + PostTexts([]) == [];
    assert now.comments + PostedToIssue(b, []) == now.comments && PostedToCard(b, []) + now.actions == now.actions;
    assert Sync(b, s).1 == calls;
  }

  /** After two runs of step 1 there is nothing left for it to do. */
  lemma StateSettles(b: Board, s: State, between: State)
    requires var now := SyncState(b, s).0;
             between.closed == now.closed && between.complete == now.complete && between.list == now.list
    ensures SyncState(b, SyncState(b, between).0) == (SyncState(b, between).0, [])
  {
  }

  /** From the third run on, no writing call of any kind is made, and nothing changes any more. */
  lemma ThirdRunCallsNothing(b: Board, s: State)
    ensures var second := Sync(b, Sync(b, s).0).0; Sync(b, second) == (second, [])
  {
    var first := Sync(b, s).0;
    SecondRunPostsNothing(b, s);
    NoPosts(b, first);
    var second := Sync(b, first).0;
    StateSettles(b, s, first);
    SecondRunPostsNothing(b, first);
    NoPosts(b, second);
  }

  /**
   After two runs both sides agree: closed and complete when either was at first, and then the card is in
   the "Done" list if the board has one.
   */
  lemma SidesAgree(b: Board, s: State)
    ensures var second := Sync(b, Sync(b, s).0).0;
            && second.closed == second.complete == (s.closed || s.complete)
            && (second.closed && DoneList(b.lists).Some? ==> second.list == DoneList(b.lists).value.0)
            && (!second.closed ==> second.list == s.list)
  {
    SecondRunPostsNothing(b, s);
    NoPosts(b, Sync(b, s).0);
  }

  /** A run adds to both histories and takes nothing away. */
  lemma NothingLost(b: Board, s: State) returns (posted: seq<Comment>, happened: seq<Action>)
    ensures Sync(b, s).0.comments == s.comments + posted
    ensures Sync(b, s).0.actions == happened + s.actions
  {
    var now, posts := SyncState(b, s).0, PostsOf(b, s);
    var stepOne := StateAdds(b, s);
    posted := PostedToIssue(b, posts.move + PostTexts(posts.toIssue));
    var said := PostedToCard(b, PostTexts(posts.toCard));
    happened := said + stepOne;
    assert said + (stepOne + s.actions) == happened + s.actions;
  }

  lemma StateAdds(b: Board, s: State) returns (happened: seq<Action>)
    ensures SyncState(b, s).0.comments == s.comments && SyncState(b, s).0.actions == happened + s.actions
  {
    var now := SyncState(b, s).0;
    happened := now.actions[..|now.actions| - |s.actions|];
  }

  ghost predicate BearMark(comments: seq<Comment>, mark: string) {
    forall i :: 0 <= i < |comments| && comments[i].mirrored ==> mark <= comments[i].text
  }

  /** Mirrored comments bear the mark of the side they came from. */
  ghost predicate Honest(s: State) {
    BearMark(s.comments, FROM_TRELLO) && BearMark(Comments(s.actions), FROM_GITHUB)
  }

  /** In no run is a comment mirrored back that a run had mirrored. */
  lemma NeverMirroredBack(b: Board, s: State)
    requires Honest(s)
    ensures forall i :: 0 <= i < |PostsOf(b, s).toIssue| ==> !PostsOf(b, s).toIssue[i].source.mirrored
    ensures forall i :: 0 <= i < |PostsOf(b, s).toCard| ==> !PostsOf(b, s).toCard[i].source.mirrored
    ensures Honest(Sync(b, s).0)
  {
    var now, posts := SyncState(b, s).0, PostsOf(b, s);
    StateKeeps(b, s);
    forall i | 0 <= i < |posts.toIssue|
      ensures !posts.toIssue[i].source.mirrored && FROM_TRELLO <= posts.toIssue[i].text
    {
      IssuePostTexts(now.actions, Texts(now.comments) + posts.move, i);
    }
    forall i | 0 <= i < |posts.toCard|
      ensures !posts.toCard[i].source.mirrored && FROM_GITHUB <= posts.toCard[i].text
    {
      CardPostTexts(now.comments, Texts(Comments(now.actions)), i);
    }
    HonestParts(b, s);
  }

  lemma HonestParts(b: Board, s: State)
    requires Honest(s)
    requires forall i :: 0 <= i < |PostsOf(b, s).toIssue| ==> FROM_TRELLO <= PostsOf(b, s).toIssue[i].text
    requires forall i :: 0 <= i < |PostsOf(b, s).toCard| ==> FROM_GITHUB <= PostsOf(b, s).toCard[i].text
    ensures Honest(Sync(b, s).0)
  {
    var now, posts := SyncState(b, s).0, PostsOf(b, s);
    StateKeeps(b, s);
    MarkedComments(b, now.comments, posts.move + PostTexts(posts.toIssue));
    MarkedActions(b, now.actions, PostTexts(posts.toCard));
    assert Sync(b, s).0.actions == PostedToCard(b, PostTexts(posts.toCard)) + now.actions;
  }

  lemma MarkedComments(b: Board, comments: seq<Comment>, texts: seq<string>)
    requires BearMark(comments, FROM_TRELLO) && forall i :: 0 <= i < |texts| ==> FROM_TRELLO <= texts[i]
    ensures BearMark(comments + PostedToIssue(b, texts), FROM_TRELLO)
  {
  }

  lemma MarkedActions(b: Board, actions: seq<Action>, texts: seq<string>)
    requires BearMark(Comments(actions), FROM_GITHUB) && forall i :: 0 <= i < |texts| ==> FROM_GITHUB <= texts[i]
    ensures BearMark(Comments(PostedToCard(b, texts) + actions), FROM_GITHUB)
  {
    PostedToCardFacts(b, texts, actions);
    CommentsConcat(PostedToCard(b, texts), actions);
    assert forall t :: t in texts ==> FROM_GITHUB <= t;
  }
}
