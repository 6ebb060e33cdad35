/**
 * The administrator's quiz list: each fetched quiz with the number of
 * students who attempted it, the updates after a quiz is toggled or deleted,
 * the name given to a downloaded results file, and the active flag's default.
 */
module Admin {
  import opened QuizData

  /** A quiz on the panel: the fetched quiz and the `attemptCount` added to it. */
  datatype ListedQuiz = ListedQuiz(quiz: Quiz, attemptCount: nat)

  /** The attempts the server reports, by user and then by quiz id; each
      entry records whether the stored attempt value is truthy. */
  type AttemptsByUser = map<string, map<string, bool>>

  /** `userAttempts[quiz.id]` is truthy. */
  predicate HasAttempt(userAttempts: map<string, bool>, id: string) {
    id in userAttempts && userAttempts[id]
  }

  /** The users with a truthy attempt entry for quiz `id`. */
  function Attempters(attempts: AttemptsByUser, id: string): set<string> {
    set u | u in attempts && HasAttempt(attempts[u], id)
  }

  /** The number of students who attempted quiz `id`: never more than the
      number of users reported. */
  function AttemptCount(attempts: AttemptsByUser, id: string): (n: nat)
    ensures n <= |attempts|
  {
    var s := Attempters(attempts, id);
    assert s <= attempts.Keys;
    SubsetCard(s, attempts.Keys);
    |s|
  }

  lemma {:induction false} SubsetCard(a: set<string>, b: set<string>)
    requires a <= b
    ensures |a| <= |b|
    decreases |b|
  {
    if a != {} {
      var x :| x in a;
      SubsetCard(a - {x}, b - {x});
    }
  }

  /** `.catch(() => ({}))`: a failed fetch of the attempts counts as none. */
  function AttemptsOrEmpty(fetched: Option<AttemptsByUser>): (attempts: AttemptsByUser)
    ensures fetched.Some? ==> attempts == fetched.value
    ensures fetched.None? ==> attempts == map[]
  {
    if fetched.Some? then fetched.value else map[]
  }

  /** With the attempts fetch failed, every quiz shows 0 attempts. */
  lemma FailedFetchCountsZero(id: string)
    ensures AttemptCount(AttemptsOrEmpty(None), id) == 0
  {
    assert Attempters(map[], id) == {};
  }

  /** Visiting one more user adds that user to the counted ones exactly when
      they attempted the quiz. */
  lemma VisitOne(users: set<string>, pending: set<string>, u: string)
    requires u in pending
    ensures |users - (pending - {u})| == |users - pending| + if u in users then 1 else 0
  {
    if u in users {
      assert users - (pending - {u}) == (users - pending) + {u};
    } else {
      assert users - (pending - {u}) == users - pending;
    }
  }

  /** The `forEach` over `Object.values(attemptsRes)` with its
      `attemptCount++`. */
  method CountAttempts(attempts: AttemptsByUser, id: string) returns (count: nat)
    ensures count == AttemptCount(attempts, id)
  {
    ghost var users := Attempters(attempts, id);
    count := 0;
    var pending := attempts.Keys;
    while pending != {}
      invariant pending <= attempts.Keys
      invariant count == |users - pending|
      decreases |pending|
    {
      var u :| u in pending;
      VisitOne(users, pending, u);
      if HasAttempt(attempts[u], id) {
        count := count + 1;
      }
      pending := pending - {u};
    }
    assert users - pending == users;
  }

  /** `quiz.active !== false`: a quiz without the flag counts as active. */
  predicate IsActive(q: Quiz) {
    q.active != Some(false)
  }

  /** Only a stored `false` makes a quiz inactive: a missing flag and `true`
      both show as active. */
  lemma ActiveUnlessFalse(q: Quiz)
    ensures IsActive(q) <==> q.active.None? || q.active.value
  {
  }

  /** The `active` value `toggleActive` sends: JavaScript's `!quiz.active`,
      which is `true` for a missing flag as well as for `false`. */
  function ToggleRequest(q: Quiz): (request: bool)
    ensures q.active.Some? ==> request == !q.active.value
    ensures q.active.None? ==> request
  {
    !(q.active == Some(true))
  }

  /** A quiz stored without the flag shows as active with a "Deactivate"
      button, yet the button asks the server to store `active: true`, so the
      quiz stays active. */
  lemma ToggleRequestKeepsUnflaggedActive(q: Quiz)
    requires q.active.None?
    ensures IsActive(q) && ToggleRequest(q)
    ensures IsActive(q.(active := Some(ToggleRequest(q))))
  {
  }

  /** The value a toggle evidently means to send: the negation of what the
      card shows. */
  function ToggleRequestFixed(q: Quiz): bool {
    !IsActive(q)
  }

  /** Storing the corrected request always flips the status the card shows. */
  lemma ToggleRequestFixedFlips(q: Quiz)
    ensures IsActive(q.(active := Some(ToggleRequestFixed(q)))) == !IsActive(q)
  {
  }

  predicate IsAsciiAlnum(c: char) {
    ('a' <= c <= 'z') || ('A' <= c <= 'Z') || ('0' <= c <= '9')
  }

  /** The length of `s` in UTF-16 code units, the units a JavaScript regex
      without the `u` flag matches one at a time. */
  function Utf16Length(s: string): nat
    decreases |s|
  {
    if s == [] then 0 else (if s[0] as int > 0xFFFF then 2 else 1) + Utf16Length(s[1..])
  }

  predicate Bmp(s: string) {
    forall i :: 0 <= i < |s| ==> s[i] as int <= 0xFFFF
  }

  /** `title.replace(/[^a-z0-9]/gi, '_')`: every code unit outside
      `[A-Za-z0-9]` becomes `_`, so a character beyond the basic plane (a
      surrogate pair) becomes two. */
  function SanitizeTitle(s: string): (r: string)
    ensures forall i :: 0 <= i < |r| ==> IsAsciiAlnum(r[i]) || r[i] == '_'
    ensures |r| == Utf16Length(s)
    ensures Bmp(s) ==> |r| == |s| && forall i :: 0 <= i < |s| ==> r[i] == if IsAsciiAlnum(s[i]) then s[i] else '_'
    decreases |s|
  {
    if s == [] then []
    else
      var rest := SanitizeTitle(s[1..]);
      var head := if IsAsciiAlnum(s[0]) then [s[0]] else if s[0] as int > 0xFFFF then "__" else "_";
      assert Bmp(s) ==> Bmp(s[1..]) by {
        if Bmp(s) { forall i | 0 <= i < |s[1..]| ensures s[1..][i] as int <= 0xFFFF { assert s[1..][i] == s[i + 1]; } }
      }
      var r := head + rest;
      assert Bmp(s) ==> forall i :: 1 <= i < |s| ==> r[i] == rest[i - 1];
      r
  }

  /** The sanitised title of a single character: itself when it is an ASCII
      letter or digit, otherwise one `_` per UTF-16 code unit. */
  lemma SanitizeChar(c: char)
    ensures SanitizeTitle([c]) == if IsAsciiAlnum(c) then [c] else if c as int > 0xFFFF then "__" else "_"
  {
    assert [c][1..] == [];
  }

  /** The replacement works code unit by code unit, so a title is sanitised
      piece by piece. */
  lemma {:induction false} SanitizeAppend(a: string, b: string)
    ensures SanitizeTitle(a + b) == SanitizeTitle(a) + SanitizeTitle(b)
    decreases |a|
  {
    if a == [] {
      assert a + b == b;
    } else {
      assert (a + b)[0] == a[0];
      assert (a + b)[1..] == a[1..] + b;
      SanitizeAppend(a[1..], b);
    }
  }

  /** The name the downloaded results file gets. */
  function ResultsFileName(title: string): (r: string)
    ensures |r| == Utf16Length(title) + 13
    ensures r[..|r| - 13] == SanitizeTitle(title)
    ensures r[|r| - 13..] == "_Results.xlsx"
    ensures forall i :: 0 <= i < |r| - 5 ==> IsAsciiAlnum(r[i]) || r[i] == '_'
  {
    var base := SanitizeTitle(title);
    var r := base + "_Results.xlsx";
    assert forall i :: 0 <= i < |base| ==> r[i] == base[i];
    r
  }

  /** `quizzes.filter(q => q.id !== id)`. */
  function RemoveById(xs: seq<ListedQuiz>, id: string): (r: seq<ListedQuiz>)
    ensures forall q :: q in r <==> q in xs && q.quiz.id != id
    ensures |r| <= |xs|
    decreases |xs|
  {
    if xs == [] then []
    else
      var rest := RemoveById(xs[1..], id);
      assert xs == [xs[0]] + xs[1..];
      if xs[0].quiz.id == id then rest else [xs[0]] + rest
  }

  /** The filter keeps the order of what it keeps: removing from a
      concatenation removes from each part. */
  lemma {:induction false} RemoveByIdAppend(a: seq<ListedQuiz>, b: seq<ListedQuiz>, id: string)
    ensures RemoveById(a + b, id) == RemoveById(a, id) + RemoveById(b, id)
    decreases |a|
  {
    if a == [] {
      assert a + b == b;
    } else {
      assert (a + b)[0] == a[0];
      assert (a + b)[1..] == a[1..] + b;
      RemoveByIdAppend(a[1..], b, id);
    }
  }

  /** Deleting an id that is not on the list changes nothing. */
  lemma {:induction false} RemoveByIdAbsent(xs: seq<ListedQuiz>, id: string)
    requires forall k :: 0 <= k < |xs| ==> xs[k].quiz.id != id
    ensures RemoveById(xs, id) == xs
    decreases |xs|
  {
    if xs != [] {
      RemoveByIdAbsent(xs[1..], id);
      assert [xs[0]] + xs[1..] == xs;
    }
  }

  /** The panel's state: the list of quizzes on show. */
  class AdminPanel {
    var quizzes: seq<ListedQuiz>

    constructor ()
      ensures quizzes == []
    {
      quizzes := [];
    }

    /** `fetchQuizzes` with both fetches' results as inputs: every quiz, in
        order and otherwise unchanged, with its attempt count added. */
    method FetchQuizzes(fetched: seq<Quiz>, attemptsFetch: Option<AttemptsByUser>)
      modifies this
      ensures |quizzes| == |fetched|
      ensures forall k :: 0 <= k < |fetched| ==>
        quizzes[k].quiz == fetched[k] &&
        quizzes[k].attemptCount == AttemptCount(AttemptsOrEmpty(attemptsFetch), fetched[k].id)
    {
      var attempts := AttemptsOrEmpty(attemptsFetch);
      var enhanced: seq<ListedQuiz> := [];
      var i := 0;
      while i < |fetched|
        invariant i <= |fetched| && |enhanced| == i
        invariant forall k :: 0 <= k < i ==>
          enhanced[k].quiz == fetched[k] && enhanced[k].attemptCount == AttemptCount(attempts, fetched[k].id)
      {
        var attemptCount := CountAttempts(attempts, fetched[i].id);
        enhanced := enhanced + [ListedQuiz(fetched[i], attemptCount)];
        i := i + 1;
      }
      quizzes := enhanced;
    }

    /** Sends `!quiz.active` and, once the server answers with the stored
        quiz, replaces every entry with that id by
        the answer, keeping the clicked entry's attempt count; the other
        entries stay as and where they were. */
    method ToggleActive(quiz: ListedQuiz, response: Quiz) returns (request: bool)
      modifies this
      ensures request == ToggleRequest(quiz.quiz)
      ensures |quizzes| == |old(quizzes)|
      ensures forall k :: 0 <= k < |quizzes| ==>
        quizzes[k] == if old(quizzes)[k].quiz.id == quiz.quiz.id
                      then ListedQuiz(response, quiz.attemptCount)
                      else old(quizzes)[k]
    {
      request := ToggleRequest(quiz.quiz);
      var id := quiz.quiz.id;
      var replacement := ListedQuiz(response, quiz.attemptCount);
      quizzes := seq(|quizzes|, k requires 0 <= k < |quizzes| reads this =>
        if quizzes[k].quiz.id == id then replacement else quizzes[k]);
    }

    /** Deletes every entry with the id once the administrator confirms;
        nothing happens otherwise. */
    method DeleteQuiz(id: string, confirmed: bool)
      modifies this
      ensures quizzes == if confirmed then RemoveById(old(quizzes), id) else old(quizzes)
    {
      if !confirmed {
        return;
      }
      quizzes := RemoveById(quizzes, id);
    }
  }
}
