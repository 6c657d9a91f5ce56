/** What the sync writes, word for word, what one run makes of issue and card, and which comments it posts. */
module TrelloRules {
  import opened Outcomes
  import opened TrelloSync

  // ---------- the texts ----------

  lemma TextsAre(c: Comment, list: string)
    ensures TrelloText(c) == "**[Trello] " + c.author + " wrote:**\n\n" + c.text
    ensures GitHubText(c) == "**" + c.author + " wrote on GitHub:**\n\n" + c.text
    ensures MoveText(c.author, list) == "**[Trello] " + c.author + " moved this card to list \"" + list + "\"**"
    ensures FROM_GITHUB == "**" && FROM_TRELLO == "**[Trello]"
  {
    assert "**[Trello] " == "**[Trello]" + " ";
  }

  /** After a run every comment of the card without the mark is told on the issue, and its author with it. */
  lemma CardToldOnIssue(b: Board, s: State, i: nat)
    requires var said := Comments(Sync(b, s).0.actions); i < |said| && !("**" <= said[i].text)
    ensures var c := Comments(Sync(b, s).0.actions)[i];
            exists j :: 0 <= j < |Sync(b, s).0.comments|
                        && Sync(b, s).0.comments[j].text == "**[Trello] " + c.author + " wrote:**\n\n" + c.text
  {
    var after := Sync(b, s).0;
    var c := Comments(after.actions)[i];
    IssueCovered(b, s);
    TextsAre(c, "");
    assert TrelloText(c) in Texts(after.comments);
    var j :| 0 <= j < |Texts(after.comments)| && Texts(after.comments)[j] == TrelloText(c);
  }

  /** And every comment of the issue without the mark of the other side on the card. */
  lemma IssueToldOnCard(b: Board, s: State, i: nat)
    requires i < |Sync(b, s).0.comments| && !("**[Trello]" <= Sync(b, s).0.comments[i].text)
    ensures var c := Sync(b, s).0.comments[i];
            exists j :: 0 <= j < |Comments(Sync(b, s).0.actions)|
                        && Comments(Sync(b, s).0.actions)[j].text
                           == "**" + c.author + " wrote on GitHub:**\n\n" + c.text
  {
    var after := Sync(b, s).0;
    var c := after.comments[i];
    CardCovered(b, s);
    TextsAre(c, "");
    var texts := Texts(Comments(after.actions));
    assert GitHubText(c) in texts;
    var j :| 0 <= j < |texts| && texts[j] == GitHubText(c);
  }

  /** Equal texts of one author come from equal comments. */
  lemma TextsDiffer(a: string, x: string, y: string, m: bool, n: bool)
    ensures TrelloText(Comment(a, x, m)) == TrelloText(Comment(a, y, n)) <==> x == y
    ensures GitHubText(Comment(a, x, m)) == GitHubText(Comment(a, y, n)) <==> x == y
    ensures MoveText(a, x) == MoveText(a, y) <==> x == y
  {
    TextsAre(Comment(a, x, m), x);
    TextsAre(Comment(a, y, n), y);
    SameLead("**[Trello] " + a + " wrote:**\n\n", x, y);
    SameLead("**" + a + " wrote on GitHub:**\n\n", x, y);
    SameLead("**[Trello] " + a + " moved this card to list \"", x + "\"**", y + "\"**");
    SameEnd(x, y, "\"**");
    assert MoveText(a, x) == "**[Trello] " + a + " moved this card to list \"" + (x + "\"**");
    assert MoveText(a, y) == "**[Trello] " + a + " moved this card to list \"" + (y + "\"**");
  }

  lemma SameLead(lead: string, x: string, y: string)
    ensures lead + x == lead + y <==> x == y
  {
    if lead + x == lead + y {
      assert (lead + x)[|lead|..] == x && (lead + y)[|lead|..] == y;
    }
  }

  lemma SameEnd(x: string, y: string, end: string)
    ensures x + end == y + end <==> x == y
  {
    if x + end == y + end {
      assert |x| == |y| && (x + end)[..|x|] == x && (y + end)[..|y|] == y;
    }
  }

  // ---------- what is posted ----------

  ghost predicate NewAndOnce(texts: seq<string>, posted: seq<string>) {
    && (forall i :: 0 <= i < |posted| ==> posted[i] !in texts)
    && (forall i, j :: 0 <= i < j < |posted| ==> posted[i] != posted[j])
  }

  lemma NewFirst(texts: seq<string>, text: string, rest: seq<string>)
    requires text !in texts && NewAndOnce(texts + [text], rest)
    ensures NewAndOnce(texts, [text] + rest)
  {
    var known, all := texts + [text], [text] + rest;
    assert known[|texts|] == text && forall t :: t in texts ==> t in known;
    assert forall i :: 0 < i < |all| ==> all[i] == rest[i - 1];
  }

  lemma {:induction false} IssuePostsNew(actions: seq<Action>, texts: seq<string>)
    ensures NewAndOnce(texts, PostTexts(IssuePosts(actions, texts)))
  {
    if actions != [] {
      var action, rest := actions[0], actions[1..];
      assert actions == [action] + rest;
      IssueStep([], action, rest, texts);
      assert forall p: seq<string> :: [] + p == p;
      if action.Said? && !(FROM_GITHUB <= action.comment.text) && TrelloText(action.comment) !in texts {
        var text := TrelloText(action.comment);
        IssuePostsNew(rest, texts + [text]);
        NewFirst(texts, text, PostTexts(IssuePosts(rest, texts + [text])));
      } else {
        IssuePostsNew(rest, texts);
      }
    }
  }

  /** What a run posts to the issue was not there, and is posted once. */
  lemma PostedOnce(b: Board, s: State)
    ensures NewAndOnce(Texts(s.comments), PostsOf(b, s).move + PostTexts(PostsOf(b, s).toIssue))
  {
    var now, posts := SyncState(b, s).0, PostsOf(b, s);
    var texts := Texts(now.comments);
    StateKeeps(b, s);
    IssuePostsNew(now.actions, texts + posts.move);
    if posts.move != [] {
      NewFirst(texts, posts.move[0], PostTexts(posts.toIssue));
    } else {
      assert texts + posts.move == texts && posts.move + PostTexts(posts.toIssue) == PostTexts(posts.toIssue);
    }
  }

  // ---------- the "Done" list ----------

  function Lower(c: char): char {
    if 'A' <= c <= 'Z' then (c as int + 32) as char else c
  }

  /** The name is "done", in any case. */
  predicate NamedDone(name: string) {
    |name| == 4 && Lower(name[0]) == 'd' && Lower(name[1]) == 'o' && Lower(name[2]) == 'n' && Lower(name[3]) == 'e'
  }

  lemma DoneIs(name: string)
    ensures IsDone(name) <==> NamedDone(name)
  {
  }

  lemma {:induction false} DoneListIs(lists: seq<(string, string)>)
    ensures DoneList(lists).None? <==> forall i :: 0 <= i < |lists| ==> !NamedDone(lists[i].1)
    ensures DoneList(lists).Some? ==>
              exists i :: 0 <= i < |lists| && DoneList(lists).value == lists[i] && NamedDone(lists[i].1)
                          && forall j :: 0 <= j < i ==> !NamedDone(lists[j].1)
  {
    if lists != [] {
      DoneIs(lists[0].1);
      DoneListIs(lists[1..]);
      if NamedDone(lists[0].1) {
        assert DoneList(lists).value == lists[0];
      } else if DoneList(lists).Some? {
        var i :| 0 <= i < |lists[1..]| && DoneList(lists).value == lists[1..][i] && NamedDone(lists[1..][i].1)
            && forall j :: 0 <= j < i ==> !NamedDone(lists[1..][j].1);
        assert lists[i + 1] == lists[1..][i];
        assert forall j :: 0 < j < i + 1 ==> lists[j] == lists[1..][j - 1];
      } else {
        assert forall i :: 0 < i < |lists| ==> lists[i] == lists[1..][i - 1];
      }
    }
  }

  // ---------- one run ----------

  /**
   After one run a closed issue's card is complete and in the "Done" list, if there is one; a complete card's
   issue is closed; and an open issue with an incomplete card is as it was.
   */
  lemma OneRun(b: Board, s: State)
    ensures var after, done := Sync(b, s).0, DoneList(b.lists);
            && after.closed == (s.closed || s.complete)
            && after.complete == (s.closed || s.complete)
            && after.list == if s.closed && done.Some? then done.value.0 else s.list
  {
  }

  /** The calls of step 1: none but what is needed for that, and none that says what is so already. */
  lemma OneRunCalls(b: Board, s: State)
    ensures var calls, done := SyncState(b, s).1, DoneList(b.lists);
            var move := done.Some? && s.list != done.value.0;
            && SyncState(b, s).1 <= Sync(b, s).1
            && (calls == [] <==> if s.closed then s.complete && !move else !s.complete)
            && (calls == [CloseIssue] <==> s.complete && !s.closed)
            && (calls != [] && s.closed ==>
                  calls == [UpdateCard(!s.complete, if move then Some(done.value.0) else None)])
  {
    CallsFirst(b, s);
  }

  lemma CallsFirst(b: Board, s: State)
    ensures SyncState(b, s).1 <= Sync(b, s).1
  {
    var calls, posts := SyncState(b, s).1, PostsOf(b, s);
    var more := IssueCalls(posts.move + PostTexts(posts.toIssue)) + CardCalls(PostTexts(posts.toCard));
    assert Sync(b, s).1 == calls + more;
  }

  /** The latest move is told on the issue, unless the issue was closed and the card went to "Done". */
  lemma MoveTold(b: Board, s: State)
    ensures var after, move := Sync(b, s).0, LatestMove(Sync(b, s).0.actions);
            move.Some? && !(s.closed && NamedDone(move.value.list)) ==>
              exists j :: 0 <= j < |after.comments|
                          && after.comments[j].text == "**[Trello] " + move.value.author
                                                       + " moved this card to list \"" + move.value.list + "\"**"
  {
    var after, move := Sync(b, s).0, LatestMove(Sync(b, s).0.actions);
    MoveCovered(b, s);
    if move.Some? && !(s.closed && NamedDone(move.value.list)) {
      DoneIs(move.value.list);
      TextsAre(Comment(move.value.author, "", false), move.value.list);
      var text := MoveText(move.value.author, move.value.list);
      assert text in Texts(after.comments);
      var j :| 0 <= j < |Texts(after.comments)| && Texts(after.comments)[j] == text;
    }
  }
}
