/**
 * The quiz authoring form: the list of draft questions the administrator
 * edits, the formatter that turns the comma-separated option and answer
 * texts into lists when the form is submitted, and the loader that turns a
 * stored quiz back into drafts in edit mode.
 */
module Authoring {
  import opened QuizData
  import opened JsText

  /** A question as the form holds it: options and correct answer are the raw
      texts of their inputs. */
  datatype Draft = Draft(text: string, qtype: QuestionType, options: string, correct: string)

  /** The question `addQuestion` appends and the form starts with. */
  const Blank := Draft("", SingleSelect, "", "")

  /** `updateQuestion(i, field, value)`: the field named and its new value. */
  datatype Edit =
    | SetText(text: string)
    | SetType(qtype: QuestionType)
    | SetOptions(options: string)
    | SetCorrect(correct: string)

  /** `q[field] = value`: the named field takes the value, the others keep
      theirs. */
  function Apply(d: Draft, e: Edit): (r: Draft)
    ensures r.text == (if e.SetText? then e.text else d.text)
    ensures r.qtype == (if e.SetType? then e.qtype else d.qtype)
    ensures r.options == (if e.SetOptions? then e.options else d.options)
    ensures r.correct == (if e.SetCorrect? then e.correct else d.correct)
  {
    match e
    case SetText(v) => d.(text := v)
    case SetType(v) => d.(qtype := v)
    case SetOptions(v) => d.(options := v)
    case SetCorrect(v) => d.(correct := v)
  }

  /** `xs.filter((_, index) => index !== i)`. */
  function RemoveAt(xs: seq<Draft>, i: nat): (r: seq<Draft>)
    ensures i >= |xs| ==> r == xs
    ensures i < |xs| ==> |r| == |xs| - 1
    ensures i < |xs| ==> forall k :: 0 <= k < |r| ==> r[k] == xs[if k < i then k else k + 1]
  {
    if i < |xs| then xs[..i] + xs[i + 1..] else xs
  }

  /** An entry of a formatted list: not empty, without a comma, trimmed. */
  predicate Clean(p: string) {
    p != "" && ',' !in p && IsTrimmed(p)
  }

  predicate AllClean(xs: seq<string>) {
    forall k :: 0 <= k < |xs| ==> Clean(xs[k])
  }

  /** Entries that are trimmed and hold no comma. */
  predicate TrimmedNoComma(xs: seq<string>) {
    forall k :: 0 <= k < |xs| ==> ',' !in xs[k] && IsTrimmed(xs[k])
  }

  /** Dropping the empty entries of such a list leaves only clean ones. */
  lemma {:induction false} DropEmptyClean(xs: seq<string>)
    requires TrimmedNoComma(xs)
    ensures AllClean(DropEmpty(xs))
    decreases |xs|
  {
    if xs != [] {
      assert TrimmedNoComma(xs[1..]) by {
        forall k | 0 <= k < |xs[1..]| ensures ',' !in xs[1..][k] && IsTrimmed(xs[1..][k]) {
          assert xs[1..][k] == xs[k + 1];
        }
      }
      DropEmptyClean(xs[1..]);
      var rest := DropEmpty(xs[1..]);
      if xs[0] != "" {
        assert DropEmpty(xs) == [xs[0]] + rest;
        forall k | 0 <= k < |[xs[0]] + rest| ensures Clean(([xs[0]] + rest)[k]) {
          if k > 0 { assert ([xs[0]] + rest)[k] == rest[k - 1]; }
        }
      }
    }
  }

  /** `s.split(',').map(x => x.trim()).filter(x => x)`. */
  function ParseList(s: string): (r: seq<string>)
    ensures AllClean(r)
  {
    var pieces := Split(s);
    var trimmed := TrimAll(pieces);
    assert TrimmedNoComma(trimmed) by {
      forall k | 0 <= k < |trimmed| ensures ',' !in trimmed[k] && IsTrimmed(trimmed[k]) {
        TrimAllAt(pieces, k);
        TrimKeepsOut(pieces[k], ',');
      }
    }
    DropEmptyClean(trimmed);
    DropEmpty(trimmed)
  }

  /** `q.options ? <ParseList> : []`: the empty text is falsy. */
  function ParseOptions(s: string): (r: seq<string>)
    ensures AllClean(r)
  {
    if s == "" then [] else ParseList(s)
  }

  lemma ParseEmpty()
    ensures ParseList("") == []
  {
    assert Split("") == [""];
    assert Trim("") == "";
    assert TrimAll([""]) == [""];
    assert DropEmpty([""]) == [] by {
      assert [""][1..] == [];
    }
  }

  /** The falsy check is redundant: the empty text parses to no options anyway. */
  lemma ParseOptionsIsParseList(s: string)
    ensures ParseOptions(s) == ParseList(s)
  {
    if s == "" {
      ParseEmpty();
    }
  }

  /** What the formatter leaves behind: options are always a list of clean
      entries, a multi_select answer is a list of clean entries, any other
      answer is a trimmed string. */
  predicate Canonical(q: Question) {
    && q.options.Some? && AllClean(q.options.value)
    && (q.qtype == MultiSelect ==> q.correct.CorrectList? && AllClean(q.correct.items))
    && (q.qtype != MultiSelect ==> q.correct.CorrectText? && IsTrimmed(q.correct.text))
  }

  /** One entry of `formattedQuestions`: text and type carried over, options
      and the correct answer parsed by the question's type. */
  function Format(d: Draft): (q: Question)
    ensures q.text == d.text && q.qtype == d.qtype
    ensures Canonical(q)
  {
    Question(
      d.text,
      d.qtype,
      Some(ParseOptions(d.options)),
      if d.qtype == MultiSelect then CorrectList(ParseList(d.correct)) else CorrectText(Trim(d.correct)))
  }

  /** `formattedQuestions`: one question per draft, in the same order. */
  function FormatAll(ds: seq<Draft>): (qs: seq<Question>)
    ensures |qs| == |ds|
    ensures forall k :: 0 <= k < |ds| ==> qs[k] == Format(ds[k])
  {
    seq(|ds|, k requires 0 <= k < |ds| => Format(ds[k]))
  }

  /** The edit-mode loader: lists are joined with ", ", a string answer is
      kept as it is, absent options become the empty text. */
  function Load(q: Question): (d: Draft)
    ensures d.text == q.text && d.qtype == q.qtype
    ensures q.options.None? ==> d.options == ""
    ensures q.correct.CorrectText? ==> d.correct == q.correct.text
  {
    Draft(
      q.text,
      q.qtype,
      if q.options.Some? then Join(q.options.value, ", ") else "",
      match q.correct
      case CorrectText(s) => s
      case CorrectList(xs) => Join(xs, ", "))
  }

  function LoadAll(qs: seq<Question>): (ds: seq<Draft>)
    ensures |ds| == |qs|
    ensures forall k :: 0 <= k < |qs| ==> ds[k] == Load(qs[k])
  {
    seq(|qs|, k requires 0 <= k < |qs| => Load(qs[k]))
  }

  lemma TrimAllCons(x: string, xs: seq<string>)
    ensures TrimAll([x] + xs) == [Trim(x)] + TrimAll(xs)
  {
    assert ([x] + xs)[1..] == xs;
  }

  /** White space in front of a clean entry brings no comma and is trimmed away. */
  lemma SpacedEntry(w: string, x: string)
    requires AllSpace(w) && Clean(x)
    ensures ',' !in w + x && Trim(w + x) == x
  {
    assert !IsSpace(',');
    assert ',' !in w;
    TrimSkipsSpace(w, x);
    TrimmedIsFixed(x);
  }

  lemma JoinStep(w: string, xs: seq<string>)
    requires |xs| >= 2
    ensures w + Join(xs, ", ") == (w + xs[0]) + "," + (" " + Join(xs[1..], ", "))
  {
  }

  lemma CleanTail(xs: seq<string>)
    requires |xs| >= 1 && AllClean(xs)
    ensures AllClean(xs[1..])
  {
    forall k | 0 <= k < |xs[1..]| ensures Clean(xs[1..][k]) {
      assert xs[1..][k] == xs[k + 1];
    }
  }

  /** A comma-free piece in front of a comma is cut off and trimmed on its
      own. */
  lemma TrimmedPiecesCons(head: string, tail: string, x: string, rest: seq<string>)
    requires ',' !in head && Trim(head) == x
    requires TrimAll(Split(tail)) == rest
    ensures TrimAll(Split(head + "," + tail)) == [x] + rest
  {
    SplitFirstPiece(head, tail);
    TrimAllCons(head, Split(tail));
  }

  /** Cutting `w + xs.join(", ")` at its commas and trimming the pieces gives
      `xs` back when the entries are clean and `w` is white space. */
  lemma {:induction false} TrimmedPiecesOfJoin(w: string, xs: seq<string>)
    requires AllSpace(w) && |xs| >= 1 && AllClean(xs)
    ensures TrimAll(Split(w + Join(xs, ", "))) == xs
    decreases |xs|
  {
    if |xs| == 1 {
      var head := w + xs[0];
      assert w + Join(xs, ", ") == head;
      SpacedEntry(w, xs[0]);
      SplitNoComma(head);
      TrimAllCons(head, []);
      assert [xs[0]] + [] == xs;
    } else {
      assert AllSpace(" ");
      CleanTail(xs);
      TrimmedPiecesOfJoin(" ", xs[1..]);
      JoinStep(w, xs);
      SpacedEntry(w, xs[0]);
      TrimmedPiecesCons(w + xs[0], " " + Join(xs[1..], ", "), xs[0], xs[1..]);
      assert [xs[0]] + xs[1..] == xs;
    }
  }

  /** Joining clean entries with ", " and parsing gives the entries back. */
  lemma ParseJoin(xs: seq<string>)
    requires AllClean(xs)
    ensures ParseList(Join(xs, ", ")) == xs
  {
    if xs == [] {
      assert Split("") == [""];
      assert TrimAll([""]) == [""];
    } else {
      assert "" + Join(xs, ", ") == Join(xs, ", ");
      TrimmedPiecesOfJoin("", xs);
      DropEmptyKeepsNonEmpty(xs);
    }
  }

  /** Loading a formatted question into the form and submitting it unchanged
      gives the question back. */
  lemma {:induction false} FormatLoad(q: Question)
    requires Canonical(q)
    ensures Format(Load(q)) == q
  {
    var d := Load(q);
    ParseJoin(q.options.value);
    ParseOptionsIsParseList(d.options);
    if q.qtype == MultiSelect {
      ParseJoin(q.correct.items);
    } else {
      TrimmedIsFixed(q.correct.text);
    }
  }

  /** Formatting normalises once and for all: a quiz saved, reopened and saved
      again is stored as it was the first time. */
  lemma FormatIdempotent(d: Draft)
    ensures Format(Load(Format(d))) == Format(d)
  {
    FormatLoad(Format(d));
  }

  /** The form's state: the title and the list of draft questions. */
  class QuizForm {
    var title: string
    var questions: seq<Draft>
    var isEdit: bool

    /** A new quiz starts with one blank question. */
    constructor ()
      ensures title == "" && questions == [Blank] && !isEdit
    {
      title, questions, isEdit := "", [Blank], false;
    }

    /** Edit mode: the stored quiz is turned into drafts, one per question. */
    method LoadForEdit(quiz: Quiz)
      modifies this
      ensures isEdit && title == quiz.title && questions == LoadAll(quiz.questions)
    {
      isEdit := true;
      title := quiz.title;
      questions := LoadAll(quiz.questions);
    }

    method AddQuestion()
      modifies this`questions
      ensures questions == old(questions) + [Blank]
    {
      questions := questions + [Blank];
    }

    /** Changes one field of question `i`; every other question and field is
        left alone. */
    method UpdateQuestion(i: nat, e: Edit)
      requires i < |questions|
      modifies this`questions
      ensures questions == old(questions)[i := Apply(old(questions)[i], e)]
    {
      var newQ := questions;
      newQ := newQ[i := Apply(newQ[i], e)];
      questions := newQ;
    }

    /** Removes question `i` unless it is the only one left, so a list that
        starts non-empty stays non-empty. */
    method RemoveQuestion(i: nat)
      modifies this`questions
      ensures questions == if |old(questions)| > 1 then RemoveAt(old(questions), i) else old(questions)
      ensures |old(questions)| >= 1 ==> |questions| >= 1
    {
      if |questions| > 1 {
        questions := RemoveAt(questions, i);
      }
    }

    /** The body sent to the server on submit: the title as typed and one
        formatted question per draft, in order. */
    function Submission(): (body: (string, seq<Question>))
      reads this
      ensures body.0 == title
      ensures |body.1| == |questions|
      ensures forall k :: 0 <= k < |questions| ==> body.1[k] == Format(questions[k])
    {
      (title, FormatAll(questions))
    }
  }
}
