/**
 * The run gate: whether this invocation takes a screenshot at all. Either the
 * `auto_screenshots` input is the string "true", or the most recent commit that was not
 * made by an automation bot carries the `#screenshot` marker in its message. Looking up
 * the history needs a token and can fail; both failures mean "do not run".
 */
module Gate {
  import opened Prelude
  import opened Strings

  /**
   * An author or committer as the commit listing reports it: the login of the matching
   * GitHub account (absent when none matches) and the name recorded in the commit.
   */
  datatype Identity = Identity(login: Option<string>, name: Option<string>)

  /** One entry of the recent-commit listing, newest first. */
  datatype Commit = Commit(author: Identity, committer: Identity, message: string)

  /** The only value of `auto_screenshots` that switches the commit check off. */
  const AutoOn: string := "true"

  /** The message marker that asks for a screenshot. */
  const Marker: string := "#screenshot"

  /** `login || name || ''`: the first of the two that is present and non-empty. */
  function DisplayName(id: Identity): string {
    if id.login.Some? && id.login.value != "" then id.login.value
    else if id.name.Some? && id.name.value != "" then id.name.value
    else ""
  }

  /** A commit made by an automation account: either party mentions `github-actions` or `[bot]`. */
  predicate IsBot(c: Commit) {
    var author, committer := DisplayName(c.author), DisplayName(c.committer);
    Contains(author, "github-actions") || Contains(committer, "github-actions")
    || Contains(author, "[bot]") || Contains(committer, "[bot]")
  }

  /** The token is set and non-empty (JavaScript truthiness of `process.env.GITHUB_TOKEN`). */
  predicate HasToken(token: Option<string>) {
    token.Some? && token.value != ""
  }

  /** The newest commit not made by a bot, if any. */
  function FirstHuman(commits: seq<Commit>): (r: Option<Commit>)
    ensures r.None? <==> forall i :: 0 <= i < |commits| ==> IsBot(commits[i])
    ensures r.Some? ==> exists k :: 0 <= k < |commits| && commits[k] == r.value
                          && !IsBot(commits[k])
                          && forall j :: 0 <= j < k ==> IsBot(commits[j])
  {
    if commits == [] then None
    else if !IsBot(commits[0]) then Some(commits[0])
    else
      var r := FirstHuman(commits[1..]);
      assert forall i :: 1 <= i < |commits| ==> commits[i] == commits[1..][i - 1];
      if r.Some? then
        assert exists k :: 1 <= k < |commits| && commits[k] == r.value
                 && !IsBot(commits[k]) && forall j :: 0 <= j < k ==> IsBot(commits[j]) by {
          var k :| 0 <= k < |commits[1..]| && commits[1..][k] == r.value
                   && !IsBot(commits[1..][k]) && forall j :: 0 <= j < k ==> IsBot(commits[1..][j]);
          assert commits[k + 1] == r.value;
          forall j | 0 <= j < k + 1 ensures IsBot(commits[j]) {
            if j > 0 { assert commits[j] == commits[1..][j - 1]; }
          }
        }
        r
      else
        r
  }

  /** The commit check alone: the first non-bot commit exists and carries the marker. */
  predicate CommitGate(commits: seq<Commit>) {
    var h := FirstHuman(commits);
    h.Some? && Contains(h.value.message, Marker)
  }

  /** What the gate answers, given the input, the token and the history lookup (`None`: it threw). */
  predicate Decide(autoScreenshots: string, token: Option<string>, history: Option<seq<Commit>>) {
    if autoScreenshots == AutoOn then true
    else if !HasToken(token) then false
    else history.Some? && CommitGate(history.value)
  }

  /** The commit that follows only bots and is not a bot itself is the one `FirstHuman` finds. */
  lemma FirstHumanAt(commits: seq<Commit>, k: nat)
    requires k < |commits| && !IsBot(commits[k])
    requires forall j :: 0 <= j < k ==> IsBot(commits[j])
    ensures FirstHuman(commits) == Some(commits[k])
    decreases k
  {
  }

  /**
   * The gate: `true` for the input "true"; otherwise the newest commit that is not a
   * bot's decides, by whether its message contains `#screenshot`.
   */
  method ShouldTakeScreenshot(autoScreenshots: string, token: Option<string>, history: Option<seq<Commit>>)
    returns (run: bool)
    ensures run == Decide(autoScreenshots, token, history)
  {
    if autoScreenshots == AutoOn {
      return true;
    }
    if !HasToken(token) {
      return false;
    }
    if history.None? {
      return false;
    }
    var commits := history.value;
    for k := 0 to |commits|
      invariant forall j :: 0 <= j < k ==> IsBot(commits[j])
    {
      var c := commits[k];
      if IsBot(c) {
        continue;
      }
      FirstHumanAt(commits, k);
      return Contains(c.message, Marker);
    }
    return false;
  }

  /** Whatever the token and the history, the input "true" runs. */
  lemma AutoAlwaysRuns(token: Option<string>, history: Option<seq<Commit>>)
    ensures Decide(AutoOn, token, history)
  {
  }

  /** Without the input "true", a missing token or a failed lookup never runs. */
  lemma FailuresSkip(autoScreenshots: string, token: Option<string>, history: Option<seq<Commit>>)
    requires autoScreenshots != AutoOn
    requires !HasToken(token) || history.None?
    ensures !Decide(autoScreenshots, token, history)
  {
  }

  /** The newest non-bot commit alone decides: the gate runs iff its message has the marker. */
  lemma DecidedByFirstHuman(commits: seq<Commit>, k: nat)
    requires k < |commits| && !IsBot(commits[k])
    requires forall j :: 0 <= j < k ==> IsBot(commits[j])
    ensures CommitGate(commits) <==> Contains(commits[k].message, Marker)
  {
    FirstHumanAt(commits, k);
  }

  /** Commits older than the newest non-bot one never change the answer. */
  lemma LaterCommitsIgnored(commits: seq<Commit>, k: nat, older: seq<Commit>)
    requires k < |commits| && !IsBot(commits[k])
    requires forall j :: 0 <= j < k ==> IsBot(commits[j])
    ensures CommitGate(commits[..k + 1] + older) == CommitGate(commits)
  {
    var other := commits[..k + 1] + older;
    assert forall j :: 0 <= j <= k ==> other[j] == commits[j];
    FirstHumanAt(commits, k);
    FirstHumanAt(other, k);
  }

  /** A history of bot commits only, the empty one included, never runs. */
  lemma {:induction false} BotsOnlySkip(commits: seq<Commit>)
    requires forall i :: 0 <= i < |commits| ==> IsBot(commits[i])
    ensures !CommitGate(commits)
  {
  }

  /**
   * Two concrete histories: a bot commit with the marker followed by a
   * human commit without it does not run; a single human commit with the marker does.
   */
  lemma GateExamples()
    ensures var bot := Identity(Some("github-actions[bot]"), Some("github-actions[bot]"));
            var alice := Identity(Some("alice"), Some("Alice"));
            && !CommitGate([Commit(bot, bot, "#screenshot"), Commit(alice, alice, "no marker")])
            && CommitGate([Commit(alice, alice, "fix bug #screenshot")])
  {
    var bot := Identity(Some("github-actions[bot]"), Some("github-actions[bot]"));
    var alice := Identity(Some("alice"), Some("Alice"));
    var b, h := Commit(bot, bot, "#screenshot"), Commit(alice, alice, "no marker");
    assert OccursAt("github-actions[bot]", "github-actions", 0);
    assert IsBot(b);
    assert !Contains("alice", "[bot]") by {
      assert "alice"[0..5][0] != "[bot]"[0];
    }
    assert !IsBot(h);
    DecidedByFirstHuman([b, h], 1);
    var m := Commit(alice, alice, "fix bug #screenshot");
    assert OccursAt(m.message, Marker, 8);
    DecidedByFirstHuman([m], 0);
  }
}
