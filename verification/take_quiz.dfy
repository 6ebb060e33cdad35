/**
 * The quiz-taking screen: the answers a student records, the cursor over the
 * questions, the scorer, submission with its pass mark, re-attempting, and
 * the name of the certificate file offered after a pass.
 *
 * The score is kept as integer hundredths of a percent: `toFixed(2)` rounds
 * the percentage to the nearest hundredth, halves upward, and the value
 * modelled is that rounding applied to the exact ratio.
 */
module TakeQuiz {
  import opened QuizData
  import opened JsText
  import StringOrder

  /** A recorded answer: the value of a radio, number or text input, or the
      list of ticked options of a multi_select question. */
  datatype Answer = Str(s: string) | Multi(items: seq<string>)

  const PassingMark: nat := 60

  /** `answers[i]`, `undefined` when question `i` has no entry. */
  function AnswerAt(answers: map<nat, Answer>, i: nat): Option<Answer> {
    if i in answers then Some(answers[i]) else None
  }

  /** `String(v)` of a recorded answer; an absent one is `undefined`, an array
      is joined with commas. */
  function AnswerString(a: Option<Answer>): string {
    match a
    case None => "undefined"
    case Some(Str(s)) => s
    case Some(Multi(xs)) => Join(xs, ",")
  }

  /** `String(correct)`. */
  function CorrectString(c: Correct): string {
    match c
    case CorrectText(s) => s
    case CorrectList(xs) => Join(xs, ",")
  }

  /** A multi_select question holds nothing but a list of ticked options. */
  predicate Listable(q: Question, a: Option<Answer>) {
    q.qtype == MultiSelect ==> a.None? || a.value.Multi?
  }

  /** `userAns || []` on a multi_select question. */
  function TickedList(a: Option<Answer>): seq<string>
    requires a.None? || a.value.Multi?
  {
    if a.None? then [] else a.value.items
  }

  /** The correct list of a multi_select question: an array as stored, or a
      string cut at its commas with every piece trimmed (empty pieces kept). */
  function CorrectKey(c: Correct): seq<string> {
    match c
    case CorrectList(xs) => xs
    case CorrectText(s) => TrimAll(Split(s))
  }

  /** The per-question judgement of the scorer. */
  predicate IsCorrect(q: Question, a: Option<Answer>)
    requires Listable(q, a)
  {
    if q.qtype == MultiSelect then
      StringOrder.Sort(TickedList(a)) == StringOrder.Sort(CorrectKey(q.correct))
    else
      Trim(AnswerString(a)) == Trim(CorrectString(q.correct))
  }

  /** A multi_select question is right exactly when the ticked list and the
      correct list hold the same strings the same number of times: order is
      irrelevant, duplicates are not, and nothing is trimmed but the pieces
      of a string-form correct answer. */
  lemma MultiSelectJudgement(q: Question, a: Option<Answer>)
    requires q.qtype == MultiSelect && Listable(q, a)
    ensures IsCorrect(q, a) <==> multiset(TickedList(a)) == multiset(CorrectKey(q.correct))
  {
    StringOrder.SortEqualIff(TickedList(a), CorrectKey(q.correct));
  }

  /** Any other question is right exactly when the trimmed answer text equals
      the trimmed correct text, with letter case significant; white space
      around the answer never matters. */
  lemma TextJudgementIgnoresSpace(q: Question, w1: string, s: string, w2: string)
    requires q.qtype != MultiSelect && AllSpace(w1) && AllSpace(w2)
    ensures IsCorrect(q, Some(Str(w1 + s + w2))) <==> Trim(s) == Trim(CorrectString(q.correct))
  {
    TrimIgnoresSurroundingSpace(w1, s, w2);
  }

  /** An unanswered question is judged as the empty list on a multi_select
      question and as the text "undefined" on any other. */
  lemma UnansweredJudgement(q: Question)
    ensures q.qtype == MultiSelect ==> (IsCorrect(q, None) <==> IsCorrect(q, Some(Multi([]))))
    ensures q.qtype != MultiSelect ==> (IsCorrect(q, None) <==> IsCorrect(q, Some(Str("undefined"))))
  {
  }

  /** Every recorded answer of a multi_select question is a list. */
  predicate AnswersListable(qs: seq<Question>, answers: map<nat, Answer>) {
    forall i :: i in answers && i < |qs| && qs[i].qtype == MultiSelect ==> answers[i].Multi?
  }

  /** The judgement of question `i` against its recorded answer. */
  predicate RightAt(qs: seq<Question>, answers: map<nat, Answer>, i: nat)
    requires i < |qs| && AnswersListable(qs, answers)
  {
    IsCorrect(qs[i], AnswerAt(answers, i))
  }

  /** The scorer's verdict on each question, in order. */
  function Marks(qs: seq<Question>, answers: map<nat, Answer>): (ms: seq<bool>)
    requires AnswersListable(qs, answers)
    ensures |ms| == |qs|
    ensures forall i :: 0 <= i < |qs| ==> ms[i] == RightAt(qs, answers, i)
  {
    seq(|qs|, i requires 0 <= i < |qs| && AnswersListable(qs, answers) => RightAt(qs, answers, i))
  }

  /** The `correct` counter once the marks `ms` have been gone through. */
  function CountTrue(ms: seq<bool>): (c: nat)
    ensures c <= |ms|
    decreases |ms|
  {
    if ms == [] then 0
    else CountTrue(ms[..|ms| - 1]) + if ms[|ms| - 1] then 1 else 0
  }

  /** Going one mark further adds that mark to the counter. */
  lemma CountPrefixStep(ms: seq<bool>, i: nat)
    requires i < |ms|
    ensures CountTrue(ms[..i + 1]) == CountTrue(ms[..i]) + if ms[i] then 1 else 0
  {
    assert ms[..i + 1][..i] == ms[..i];
  }

  /** The counter reaches the number of marks exactly when every mark is set. */
  lemma {:induction false} CountAllTrue(ms: seq<bool>)
    ensures CountTrue(ms) == |ms| <==> forall i :: 0 <= i < |ms| ==> ms[i]
    decreases |ms|
  {
    if ms != [] {
      var init := ms[..|ms| - 1];
      CountAllTrue(init);
      assert forall i :: 0 <= i < |init| ==> init[i] == ms[i];
    }
  }

  /** The counter stays at 0 exactly when no mark is set. */
  lemma {:induction false} CountNoneTrue(ms: seq<bool>)
    ensures CountTrue(ms) == 0 <==> forall i :: 0 <= i < |ms| ==> !ms[i]
    decreases |ms|
  {
    if ms != [] {
      var init := ms[..|ms| - 1];
      CountNoneTrue(init);
      assert forall i :: 0 <= i < |init| ==> init[i] == ms[i];
    }
  }

  /** `percentage.toFixed(2)` in hundredths: 0 for an empty quiz, otherwise
      the exact percentage 100 * correct / total rounded to the nearest
      hundredth, a half going up. */
  function Hundredths(correct: nat, total: nat): (h: nat)
    requires correct <= total
    ensures h <= 10000
    ensures total == 0 ==> h == 0
    ensures total > 0 ==> 2 * total * h <= 20000 * correct + total < 2 * total * (h + 1)
  {
    if total == 0 then 0
    else
      var n, d := 20000 * correct + total, 2 * total;
      var h := n / d;
      assert d * h <= n < d * (h + 1);
      assert h <= 10000 by {
        if h > 10000 { MulMonotone(d, 10001, h); }
      }
      h
  }

  lemma MulMonotone(k: nat, a: nat, b: nat)
    requires a <= b
    ensures k * a <= k * b
  {
  }

  /** Rounding keeps the order of the counts. */
  lemma HundredthsMonotone(c1: nat, c2: nat, total: nat)
    requires c1 <= c2 <= total
    ensures Hundredths(c1, total) <= Hundredths(c2, total)
  {
    var h1, h2 := Hundredths(c1, total), Hundredths(c2, total);
    if total > 0 && h1 > h2 {
      MulMonotone(2 * total, h2 + 1, h1);
    }
  }

  /** `parseFloat(score) >= PASSING_MARK` on the two-decimal score. */
  predicate PassedScore(h: nat) {
    h >= PassingMark * 100
  }

  /** An exact percentage of at least 60 passes. */
  lemma PassAtMark(correct: nat, total: nat)
    requires correct <= total && total > 0
    requires 100 * correct >= PassingMark * total
    ensures PassedScore(Hundredths(correct, total))
  {
    var h := Hundredths(correct, total);
    if h < 6000 {
      MulMonotone(2 * total, h + 1, 6000);
    }
  }

  /** A pass means the exact percentage is at least 59.995: rounding happens
      before the comparison. */
  lemma PassNearMark(correct: nat, total: nat)
    requires correct <= total
    requires PassedScore(Hundredths(correct, total))
    ensures total > 0 && 20000 * correct + total >= 12000 * total
  {
    var h := Hundredths(correct, total);
    MulMonotone(2 * total, 6000, h);
  }

  /** The score `calculateScore` returns for these questions and answers. */
  function ScoreOf(qs: seq<Question>, answers: map<nat, Answer>): (h: nat)
    requires AnswersListable(qs, answers)
    ensures h <= 10000
    ensures |qs| == 0 ==> h == 0
  {
    Hundredths(CountTrue(Marks(qs, answers)), |qs|)
  }

  /** All counted right rounds to 100.00; below 20000 questions only that
      does (from 20000 on, one wrong answer can round up to 100.00). */
  lemma HundredthsFull(correct: nat, total: nat)
    requires correct <= total && total > 0
    ensures correct == total ==> Hundredths(correct, total) == 10000
    ensures total < 20000 && Hundredths(correct, total) == 10000 ==> correct == total
  {
    var h := Hundredths(correct, total);
    if correct == total && h < 10000 {
      MulMonotone(2 * total, h + 1, 10000);
    }
  }

  /** None counted right rounds to 0.00; up to 20000 questions only that
      does. */
  lemma HundredthsZero(correct: nat, total: nat)
    requires correct <= total && total > 0
    ensures correct == 0 ==> Hundredths(correct, total) == 0
    ensures total <= 20000 && Hundredths(correct, total) == 0 ==> correct == 0
  {
    var h := Hundredths(correct, total);
    if correct == 0 && h > 0 {
      MulMonotone(2 * total, 1, h);
    }
  }

  /** The score is 100.00 when every question is right and, for fewer than
      20000 questions, only then. */
  lemma FullScore(qs: seq<Question>, answers: map<nat, Answer>)
    requires AnswersListable(qs, answers) && 0 < |qs| < 20000
    ensures ScoreOf(qs, answers) == 10000 <==> forall i :: 0 <= i < |qs| ==> RightAt(qs, answers, i)
  {
    HundredthsFull(CountTrue(Marks(qs, answers)), |qs|);
    CountAllTrue(Marks(qs, answers));
  }

  /** The score is 0.00 when no question is right (or there are none) and,
      for at most 20000 questions, only then. */
  lemma ZeroScore(qs: seq<Question>, answers: map<nat, Answer>)
    requires AnswersListable(qs, answers) && |qs| <= 20000
    ensures ScoreOf(qs, answers) == 0 <==> forall i :: 0 <= i < |qs| ==> !RightAt(qs, answers, i)
  {
    if |qs| > 0 {
      HundredthsZero(CountTrue(Marks(qs, answers)), |qs|);
    }
    CountNoneTrue(Marks(qs, answers));
  }

  /** Any set of nats below `n` has at most `n` elements. */
  lemma {:induction false} BoundedKeys(ks: set<nat>, n: nat)
    requires forall k :: k in ks ==> k < n
    ensures |ks| <= n
    decreases n
  {
    if n > 0 {
      BoundedKeys(ks - {n - 1}, n - 1);
    } else {
      assert ks == {};
    }
  }

  /** `checked ? [...current, option] : current.filter(v => v !== option)`. */
  function Toggled(current: seq<string>, option: string, checked: bool): (r: seq<string>)
    ensures checked ==> multiset(r) == multiset(current) + multiset{option}
    ensures !checked ==> multiset(r) == multiset(current)[option := 0]
  {
    if checked then current + [option] else Without(current, option)
  }

  predicate NoDuplicates(xs: seq<string>) {
    forall i, j :: 0 <= i < j < |xs| ==> xs[i] != xs[j]
  }

  /** Filtering an option out of a list without duplicates leaves a list
      without duplicates. */
  lemma {:induction false} WithoutKeepsNoDuplicates(xs: seq<string>, x: string)
    requires NoDuplicates(xs)
    ensures NoDuplicates(Without(xs, x))
    decreases |xs|
  {
    if xs != [] {
      var rest := Without(xs[1..], x);
      WithoutKeepsNoDuplicates(xs[1..], x);
      if xs[0] != x {
        assert xs[0] !in multiset(xs[1..]);
        assert xs[0] !in multiset(rest);
        var r := [xs[0]] + rest;
        forall i, j | 0 <= i < j < |r| ensures r[i] != r[j] {
          if i == 0 { assert r[j] == rest[j - 1]; assert r[j] in rest; }
          else { assert r[i] == rest[i - 1] && r[j] == rest[j - 1]; }
        }
      }
    }
  }

  /** A checkbox ticks an option only when the list lacks it (its `checked`
      state shows `includes(opt)`), so the ticked list never holds a
      duplicate. */
  lemma ToggleKeepsNoDuplicates(current: seq<string>, option: string, checked: bool)
    requires NoDuplicates(current)
    requires checked ==> option !in current
    ensures NoDuplicates(Toggled(current, option, checked))
  {
    if !checked {
      WithoutKeepsNoDuplicates(current, option);
    } else {
      var r := current + [option];
      forall i, j | 0 <= i < j < |r| ensures r[i] != r[j] {
        if j == |current| { assert r[i] == current[i]; }
      }
    }
  }

  /** The judgement of a multi_select question sees only the multiset of the
      ticked list, so any order of ticking and unticking that ends with the
      same options ticked scores the same. */
  lemma TickOrderIrrelevant(q: Question, xs: seq<string>, ys: seq<string>)
    requires q.qtype == MultiSelect && multiset(xs) == multiset(ys)
    ensures IsCorrect(q, Some(Multi(xs))) <==> IsCorrect(q, Some(Multi(ys)))
  {
    MultiSelectJudgement(q, Some(Multi(xs)));
    MultiSelectJudgement(q, Some(Multi(ys)));
  }

  /** `localStorage.getItem('username') || 'Student'`. */
  function DisplayName(stored: Option<string>): (name: string)
    ensures name != ""
    ensures stored.Some? && stored.value != "" ==> name == stored.value
    ensures stored.None? || stored.value == "" ==> name == "Student"
  {
    if stored.Some? && stored.value != "" then stored.value else "Student"
  }

  predicate NoSpace(s: string) {
    forall i :: 0 <= i < |s| ==> !IsSpace(s[i])
  }

  lemma NoSpaceConcat(a: string, b: string)
    requires NoSpace(a) && NoSpace(b)
    ensures NoSpace(a + b)
  {
    forall i | 0 <= i < |a + b| ensures !IsSpace((a + b)[i]) {
      if i >= |a| { assert (a + b)[i] == b[i - |a|]; }
    }
  }

  /** The characters a file name reader sees: all but white space and `_`. */
  function Visible(s: string): string
    decreases |s|
  {
    if s == [] then []
    else (if IsSpace(s[0]) || s[0] == '_' then [] else [s[0]]) + Visible(s[1..])
  }

  lemma {:induction false} VisibleSkipsSpace(w: string, s: string)
    requires AllSpace(w)
    ensures Visible(w + s) == Visible(s)
    decreases |w|
  {
    if w == [] {
      assert w + s == s;
    } else {
      assert (w + s)[0] == w[0];
      assert (w + s)[1..] == w[1..] + s;
      VisibleSkipsSpace(w[1..], s);
    }
  }

  /** `s.replace(/\s+/g, '_')`: every run of white space becomes one `_`. */
  function UnderscoreSpaces(s: string): (r: string)
    ensures NoSpace(r)
    ensures |r| <= |s|
    ensures NoSpace(s) ==> r == s
    decreases |s|
  {
    if s == [] then []
    else if IsSpace(s[0]) then
      "_" + UnderscoreSpaces(TrimStart(s))
    else
      assert NoSpace(s) ==> NoSpace(s[1..]) by {
        if NoSpace(s) {
          forall i | 0 <= i < |s[1..]| ensures !IsSpace(s[1..][i]) { assert s[1..][i] == s[i + 1]; }
        }
      }
      var r := [s[0]] + UnderscoreSpaces(s[1..]);
      assert NoSpace(s) ==> r == s by {
        if NoSpace(s) { assert s == [s[0]] + s[1..]; }
      }
      r
  }

  lemma UnderscoreLeadingRun(w: string, b: string)
    requires w != [] && AllSpace(w)
    requires b == [] || !IsSpace(b[0])
    ensures UnderscoreSpaces(w + b) == "_" + UnderscoreSpaces(b)
  {
    assert (w + b)[0] == w[0];
    TrimStartSkipsSpace(w, b);
    assert TrimStart(b) == b;
  }

  lemma UnderscoreKeepsChar(s: string)
    requires s != [] && !IsSpace(s[0])
    ensures UnderscoreSpaces(s) == [s[0]] + UnderscoreSpaces(s[1..])
  {
  }

  /** Past the leading white space of `a`, the rest of the text is carried
      along. */
  lemma LeadingRunThenText(a: string, rest: string)
    requires a != [] && IsSpace(a[0]) && !IsSpace(a[|a| - 1])
    ensures var t := TrimStart(a);
      && t != [] && |t| < |a| && !IsSpace(t[|t| - 1])
      && UnderscoreSpaces(a + rest) == "_" + UnderscoreSpaces(t + rest)
  {
    var t := TrimStart(a);
    TrimStartSlice(a);
    assert |t| > 0 && t[|t| - 1] == a[|a| - 1];
    assert !AllSpace(a);
    TrimStartAppend(a, rest);
    assert (a + rest)[0] == a[0];
  }

  lemma Regroup(x: string, y: string, z: string, u: string)
    ensures x + (y + z + u) == (x + y) + z + u
  {
  }

  lemma Associate(x: string, y: string, z: string)
    ensures x + y + z == x + (y + z) && x + [] == x
  {
  }

  lemma RunAfterLeadingSpace(a: string, w: string, b: string)
    requires a != [] && IsSpace(a[0]) && !IsSpace(a[|a| - 1])
    requires var t := TrimStart(a);
      UnderscoreSpaces(t + w + b) == UnderscoreSpaces(t) + "_" + UnderscoreSpaces(b)
    ensures UnderscoreSpaces(a + w + b) == UnderscoreSpaces(a) + "_" + UnderscoreSpaces(b)
  {
    var t := TrimStart(a);
    var ut, ub := UnderscoreSpaces(t), UnderscoreSpaces(b);
    assert UnderscoreSpaces(a + w + b) == "_" + (ut + "_" + ub) by {
      LeadingRunThenText(a, w + b);
      Associate(a, w, b);
      Associate(t, w, b);
    }
    assert UnderscoreSpaces(a) == "_" + ut by {
      LeadingRunThenText(a, []);
      Associate(a, [], []);
      Associate(t, [], []);
    }
    Regroup("_", ut, "_", ub);
  }

  /** Past a leading character other than white space, the rest of the
      text is carried along. */
  lemma CharThenText(a: string, rest: string)
    requires a != [] && !IsSpace(a[0])
    ensures UnderscoreSpaces(a + rest) == [a[0]] + UnderscoreSpaces(a[1..] + rest)
  {
    assert (a + rest)[0] == a[0] && (a + rest)[1..] == a[1..] + rest;
    UnderscoreKeepsChar(a + rest);
  }

  lemma RunAfterChar(a: string, w: string, b: string)
    requires a != [] && !IsSpace(a[0])
    requires UnderscoreSpaces(a[1..] + w + b) == UnderscoreSpaces(a[1..]) + "_" + UnderscoreSpaces(b)
    ensures UnderscoreSpaces(a + w + b) == UnderscoreSpaces(a) + "_" + UnderscoreSpaces(b)
  {
    var ua, ub := UnderscoreSpaces(a[1..]), UnderscoreSpaces(b);
    assert UnderscoreSpaces(a + w + b) == [a[0]] + (ua + "_" + ub) by {
      CharThenText(a, w + b);
      Associate(a, w, b);
      Associate(a[1..], w, b);
    }
    assert UnderscoreSpaces(a) == [a[0]] + ua by {
      UnderscoreKeepsChar(a);
    }
    Regroup([a[0]], ua, "_", ub);
  }

  /** A maximal run of white space becomes a single `_` in its place: the
      text before it and the text after it are handled on their own. */
  lemma {:induction false} UnderscoreSpacesRun(a: string, w: string, b: string)
    requires w != [] && AllSpace(w)
    requires a == [] || !IsSpace(a[|a| - 1])
    requires b == [] || !IsSpace(b[0])
    ensures UnderscoreSpaces(a + w + b) == UnderscoreSpaces(a) + "_" + UnderscoreSpaces(b)
    decreases |a|
  {
    if a == [] {
      assert a + w + b == w + b;
      UnderscoreLeadingRun(w, b);
    } else if IsSpace(a[0]) {
      LeadingRunThenText(a, []);
      UnderscoreSpacesRun(TrimStart(a), w, b);
      RunAfterLeadingSpace(a, w, b);
    } else {
      UnderscoreSpacesRun(a[1..], w, b);
      RunAfterChar(a, w, b);
    }
  }

  /** Replacing white-space runs by `_` keeps every other character, in
      order. */
  lemma {:induction false} UnderscoreSpacesVisible(s: string)
    ensures Visible(UnderscoreSpaces(s)) == Visible(s)
    decreases |s|
  {
    if s != [] {
      if IsSpace(s[0]) {
        var rest := TrimStart(s);
        TrimStartSlice(s);
        var k := |s| - |rest|;
        assert s == s[..k] + rest;
        VisibleSkipsSpace(s[..k], rest);
        UnderscoreSpacesVisible(rest);
        assert ("_" + UnderscoreSpaces(rest))[1..] == UnderscoreSpaces(rest);
      } else {
        UnderscoreSpacesVisible(s[1..]);
        assert ([s[0]] + UnderscoreSpaces(s[1..]))[1..] == UnderscoreSpaces(s[1..]);
      }
    }
  }

  /** The name `doc.save` is given:
      `Certificate_${username}_${title with white-space runs as _}.pdf`. */
  function CertificateFileName(stored: Option<string>, title: string): (r: string)
    ensures |r| >= 17 && r[..12] == "Certificate_" && r[|r| - 4..] == ".pdf"
    ensures var n := DisplayName(stored);
      && |r| == |n| + |UnderscoreSpaces(title)| + 17
      && r[12..12 + |n|] == n
      && r[12 + |n|] == '_'
      && r[13 + |n|..|r| - 4] == UnderscoreSpaces(title)
  {
    var n, base := DisplayName(stored), UnderscoreSpaces(title);
    var middle := n + "_" + base;
    var r := "Certificate_" + middle + ".pdf";
    assert r[..12] == "Certificate_";
    assert r[|r| - 4..] == ".pdf";
    assert r[12..|r| - 4] == middle;
    assert middle[..|n|] == n && middle[|n|] == '_' && middle[|n| + 1..] == base;
    r
  }

  lemma FixedPartsNoSpace()
    ensures NoSpace("Certificate_") && NoSpace("_") && NoSpace(".pdf")
  {
  }

  /** The file name holds no white space unless the stored user name does. */
  lemma CertificateFileNameNoSpace(stored: Option<string>, title: string)
    requires NoSpace(DisplayName(stored))
    ensures NoSpace(CertificateFileName(stored, title))
  {
    var name, base := DisplayName(stored), UnderscoreSpaces(title);
    var s3 := "Certificate_" + name + "_" + base;
    assert NoSpace(s3 + ".pdf") by {
      FixedPartsNoSpace();
      NoSpaceConcat("Certificate_", name);
      NoSpaceConcat("Certificate_" + name, "_");
      NoSpaceConcat("Certificate_" + name + "_", base);
      NoSpaceConcat(s3, ".pdf");
    }
    assert CertificateFileName(stored, title) == s3 + ".pdf";
  }

  /** One student's pass through one quiz. */
  class QuizSession {
    const quizId: string
    const title: string
    const questions: seq<Question>
    var answers: map<nat, Answer>
    var index: nat
    var score: Option<nat>
    var showResult: bool

    ghost predicate Valid()
      reads this
    {
      && (index == 0 || index < |questions|)
      && (forall k :: k in answers ==> k < |questions|)
      && AnswersListable(questions, answers)
      && (showResult <==> score.Some?)
    }

    /** The session as it starts once the quiz has been fetched. */
    constructor (quiz: Quiz)
      ensures Valid()
      ensures quizId == quiz.id && title == quiz.title && questions == quiz.questions
      ensures answers == map[] && index == 0 && score == None && !showResult
    {
      quizId, title, questions := quiz.id, quiz.title, quiz.questions;
      answers, index, score, showResult := map[], 0, None, false;
    }

    /** `Object.keys(answers).length`: a key counts whatever its value. */
    function AttemptedCount(): (n: nat)
      reads this
      requires Valid()
      ensures n <= |questions|
    {
      BoundedKeys(answers.Keys, |questions|);
      |answers|
    }

    /** The radio, number and text inputs record their value for the shown
        question, replacing what was there. */
    method HandleChange(value: string)
      requires Valid() && index < |questions| && questions[index].qtype != MultiSelect
      modifies this`answers
      ensures Valid()
      ensures answers == old(answers)[index := Str(value)]
      ensures AttemptedCount() == old(AttemptedCount()) + if index in old(answers) then 0 else 1
    {
      answers := answers[index := Str(value)];
    }

    /** A checkbox of the shown multi_select question: ticking appends the
        option, unticking removes every copy of it; the entry stays even when
        its list becomes empty. */
    method HandleMultiSelect(option: string, checked: bool)
      requires Valid() && index < |questions| && questions[index].qtype == MultiSelect
      modifies this`answers
      ensures Valid()
      ensures answers == old(answers)[index := Multi(Toggled(TickedList(AnswerAt(old(answers), index)), option, checked))]
      ensures AttemptedCount() == old(AttemptedCount()) + if index in old(answers) then 0 else 1
    {
      var current := TickedList(AnswerAt(answers, index));
      if checked {
        answers := answers[index := Multi(current + [option])];
      } else {
        answers := answers[index := Multi(Without(current, option))];
      }
    }

    method GoNext()
      requires Valid()
      modifies this`index
      ensures Valid()
      ensures index == if (old(index) as int) < |questions| - 1 then old(index) + 1 else old(index)
    {
      if (index as int) < |questions| - 1 {
        index := index + 1;
      }
    }

    method GoPrev()
      requires Valid()
      modifies this`index
      ensures Valid()
      ensures index == if old(index) > 0 then old(index) - 1 else old(index)
    {
      if index > 0 {
        index := index - 1;
      }
    }

    /** `calculateScore`: counts the right answers question by question and
        turns the count into a two-decimal percentage. It reads only the
        questions and the answers, so calling it again gives the same score. */
    method CalculateScore() returns (h: nat)
      requires Valid()
      ensures h == ScoreOf(questions, answers)
    {
      ghost var marks := Marks(questions, answers);
      var correct := 0;
      var idx := 0;
      while idx < |questions|
        invariant idx <= |questions|
        invariant correct == CountTrue(marks[..idx])
      {
        CountPrefixStep(marks, idx);
        if RightAt(questions, answers, idx) {
          correct := correct + 1;
        }
        idx := idx + 1;
      }
      assert marks[..idx] == marks;
      h := Hundredths(correct, |questions|);
    }

    /** The submit button takes the place of "Next" on the last question;
        unanswered questions do not hold it back. */
    predicate CanSubmit()
      reads this
      ensures CanSubmit() ==> |questions| > 0
    {
      !showResult && index as int == |questions| - 1
    }

    /** Stores the score and shows the result; the answers and the cursor
        stay as they were. */
    method SubmitQuiz()
      requires Valid() && CanSubmit()
      modifies this`score, this`showResult
      ensures Valid()
      ensures score == Some(ScoreOf(questions, answers)) && showResult
    {
      var finalScore := CalculateScore();
      score := Some(finalScore);
      showResult := true;
    }

    /** The verdict on the result screen. */
    function Passed(): bool
      reads this
      requires Valid() && showResult
    {
      PassedScore(score.value)
    }

    /** Back to an empty attempt at the first question, whatever came before. */
    method ReattemptQuiz()
      requires Valid()
      modifies this
      ensures Valid()
      ensures answers == map[] && index == 0 && score == None && !showResult
      ensures AttemptedCount() == 0
    {
      answers := map[];
      index := 0;
      score := None;
      showResult := false;
    }
  }
}
