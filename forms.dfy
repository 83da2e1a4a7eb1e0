/**
 * The answer text built from a submitted question form (assembleQuestionAnswers in
 * internal/server/handlers.go). Question i posts its choices under "q_i", its header
 * under "q_i_header" and a free-text answer under "q_i_other"; the choice "__other__"
 * stands for that free text.
 */
module Forms {
  import opened Text

  /** A parsed form: every key with all the values posted for it, in order. */
  type Form = map<string, seq<string>>

  /** Request.FormValue: the first value posted for the key, or "". */
  function FormValue(form: Form, key: string): string {
    if key in form && |form[key]| > 0 then form[key][0] else ""
  }

  function QKey(i: nat): string {
    "q_" + Decimal(i)
  }

  function HeaderKey(i: nat): string {
    "q_" + Decimal(i) + "_header"
  }

  function OtherKey(i: nat): string {
    "q_" + Decimal(i) + "_other"
  }

  const OtherChoice := "__other__"

  lemma QKeyInjective(a: nat, b: nat)
    ensures QKey(a) == QKey(b) ==> a == b
  {
    if QKey(a) == QKey(b) {
      assert Decimal(a) == QKey(a)[2..];
      assert Decimal(b) == QKey(b)[2..];
      DecimalInjective(a, b);
    }
  }

  lemma {:induction false} QKeysCount(n: nat)
    ensures |set k | 0 <= k < n :: QKey(k)| == n
  {
    if n > 0 {
      QKeysCount(n - 1);
      var before := set k | 0 <= k < n - 1 :: QKey(k);
      assert (set k | 0 <= k < n :: QKey(k)) == before + {QKey(n - 1)};
      forall k | 0 <= k < n - 1 ensures QKey(k) != QKey(n - 1) {
        QKeyInjective(k, n - 1);
      }
    }
  }

  /** A form holds at most as many consecutive questions as it has keys. */
  lemma QuestionsBound(form: Form, n: nat)
    requires forall k | 0 <= k < n :: QKey(k) in form
    ensures n <= |form.Keys|
  {
    QKeysCount(n);
    var ks := set k | 0 <= k < n :: QKey(k);
    assert ks <= form.Keys;
    SubsetCard(ks, form.Keys);
  }

  lemma SubsetCard<T>(a: set<T>, b: set<T>)
    requires a <= b
    ensures |a| <= |b|
  {
    assert b == a + (b - a);
  }

  /** The index of the first question, from `i` on, that the form does not hold. */
  function FirstGap(form: Form, i: nat): (r: nat)
    requires forall k | 0 <= k < i :: QKey(k) in form
    ensures i <= r && QKey(r) !in form
    ensures forall k | 0 <= k < r :: QKey(k) in form
    decreases |form.Keys| - i
  {
    if QKey(i) in form then
      QuestionsBound(form, i + 1);
      FirstGap(form, i + 1)
    else i
  }

  /** The number of questions the form answers: those before the first missing "q_i". */
  function QuestionCount(form: Form): (n: nat)
    ensures QKey(n) !in form && forall k | 0 <= k < n :: QKey(k) in form
  {
    FirstGap(form, 0)
  }

  /**
   * The parts of one answer: every non-empty choice, with "__other__" replaced by
   * "Other: " and the free text, or dropped when that text is empty.
   */
  function Parts(values: seq<string>, otherText: string): seq<string> {
    if values == [] then []
    else
      var v := values[|values| - 1];
      Parts(values[..|values| - 1], otherText)
        + (if v == OtherChoice then (if otherText != "" then ["Other: " + otherText] else [])
           else if v != "" then [v] else [])
  }

  /** The parts of question i's answer. */
  function QuestionParts(form: Form, i: nat): seq<string>
    requires QKey(i) in form
  {
    Parts(form[QKey(i)], TrimSpace(FormValue(form, OtherKey(i))))
  }

  /** The answers of questions 0 .. n-1 that have parts, each joined with ", ". */
  function KeptAnswers(form: Form, n: nat): (r: seq<string>)
    requires forall k | 0 <= k < n :: QKey(k) in form
    ensures |r| <= n
  {
    if n == 0 then []
    else
      var parts := QuestionParts(form, n - 1);
      KeptAnswers(form, n - 1) + (if parts != [] then [Join(parts, ", ")] else [])
  }

  /** The headers of the questions whose answers are kept. */
  function KeptHeaders(form: Form, n: nat): (r: seq<string>)
    requires forall k | 0 <= k < n :: QKey(k) in form
    ensures |r| == |KeptAnswers(form, n)|
  {
    if n == 0 then []
    else
      var parts := QuestionParts(form, n - 1);
      KeptHeaders(form, n - 1) + (if parts != [] then [FormValue(form, HeaderKey(n - 1))] else [])
  }

  /** The line of the k-th kept answer (from 0) when there are several. */
  function Line(answer: string, header: string, k: nat): string {
    if header != "" then header + ": " + answer else "Q" + Decimal(k + 1) + ": " + answer
  }

  function Lines(answers: seq<string>, headers: seq<string>): (r: seq<string>)
    requires |answers| == |headers|
    ensures |r| == |answers|
  {
    seq(|answers|, k requires 0 <= k < |answers| => Line(answers[k], headers[k], k))
  }

  /** No answer, the bare answer, or one prefixed line per answer. */
  function Compose(answers: seq<string>, headers: seq<string>): string
    requires |answers| == |headers|
  {
    if |answers| == 0 then ""
    else if |answers| == 1 then answers[0]
    else Join(Lines(answers, headers), "\n")
  }

  /** The text assembleQuestionAnswers builds from a form. */
  function Assembled(form: Form): string {
    var n := QuestionCount(form);
    Compose(KeptAnswers(form, n), KeptHeaders(form, n))
  }

  /** The parts loop of assembleQuestionAnswers, for one question's values. */
  method AnswerParts(values: seq<string>, otherText: string) returns (parts: seq<string>)
    ensures parts == Parts(values, otherText)
  {
    parts := [];
    for j := 0 to |values|
      invariant parts == Parts(values[..j], otherText)
    {
      assert values[..j + 1][..j] == values[..j];
      var v := values[j];
      if v == OtherChoice {
        if otherText != "" {
          parts := parts + ["Other: " + otherText];
        }
      } else if v != "" {
        parts := parts + [v];
      }
    }
    assert values[..|values|] == values;
  }

  /** The question loop of assembleQuestionAnswers: kept answers and their headers. */
  method CollectAnswers(form: Form) returns (answers: seq<string>, headers: seq<string>)
    ensures var n := QuestionCount(form);
      answers == KeptAnswers(form, n) && headers == KeptHeaders(form, n)
  {
    answers, headers := [], [];
    var i: nat := 0;
    while QKey(i) in form
      invariant forall k | 0 <= k < i :: QKey(k) in form
      invariant FirstGap(form, i) == QuestionCount(form)
      invariant answers == KeptAnswers(form, i) && headers == KeptHeaders(form, i)
      decreases |form.Keys| - i
    {
      QuestionsBound(form, i + 1);
      var header := FormValue(form, HeaderKey(i));
      var otherText := TrimSpace(FormValue(form, OtherKey(i)));
      var parts := AnswerParts(form[QKey(i)], otherText);
      if |parts| > 0 {
        answers := answers + [Join(parts, ", ")];
        headers := headers + [header];
      }
      i := i + 1;
    }
  }

  /** The line loop of assembleQuestionAnswers. */
  method PrefixLines(answers: seq<string>, headers: seq<string>) returns (lines: seq<string>)
    requires |answers| == |headers|
    ensures lines == Lines(answers, headers)
  {
    lines := [];
    for k := 0 to |answers|
      invariant |lines| == k
      invariant forall m | 0 <= m < k :: lines[m] == Line(answers[m], headers[m], m)
    {
      if headers[k] != "" {
        lines := lines + [headers[k] + ": " + answers[k]];
      } else {
        lines := lines + ["Q" + Decimal(k + 1) + ": " + answers[k]];
      }
    }
  }

  /** assembleQuestionAnswers */
  method AssembleQuestionAnswers(form: Form) returns (s: string)
    ensures s == Assembled(form)
  {
    var answers, headers := CollectAnswers(form);
    if |answers| == 0 {
      return "";
    }
    if |answers| == 1 {
      return answers[0];
    }
    var lines := PrefixLines(answers, headers);
    s := Join(lines, "\n");
  }

  /** Every part is a non-empty choice or the free text, and every such value is a part. */
  lemma {:induction false} PartsMembers(values: seq<string>, otherText: string, p: string)
    ensures p in Parts(values, otherText) <==>
      || (p in values && p != "" && p != OtherChoice)
      || (otherText != "" && OtherChoice in values && p == "Other: " + otherText)
  {
    if values != [] {
      var init := values[..|values| - 1];
      PartsMembers(init, otherText, p);
      assert values == init + [values[|values| - 1]];
    }
  }

  /** The keys of the first questions, spelt out. */
  lemma SmallKeys()
    ensures QKey(0) == "q_0" && QKey(1) == "q_1" && QKey(2) == "q_2"
    ensures HeaderKey(0) == "q_0_header" && OtherKey(0) == "q_0_other"
  {
    assert Decimal(0) == "0" && Decimal(1) == "1" && Decimal(2) == "2";
  }

  /** A choice that is kept as it is. */
  predicate Plain(v: string) {
    v != "" && v != OtherChoice
  }

  lemma PartsOfOne(v: string, otherText: string)
    ensures Plain(v) ==> Parts([v], otherText) == [v]
    ensures v == "" ==> Parts([v], otherText) == []
  {
    assert [v][..0] == [];
  }

  /** A question posted with one choice and no free text. */
  lemma OneChoice(form: Form, i: nat, v: string)
    requires QKey(i) in form && form[QKey(i)] == [v] && OtherKey(i) !in form
    ensures Plain(v) ==> QuestionParts(form, i) == [v]
    ensures v == "" ==> QuestionParts(form, i) == []
  {
    assert FormValue(form, OtherKey(i)) == "";
    assert TrimSpace("") == "";
    PartsOfOne(v, "");
  }

  /** Without "q_0" the form answers nothing. */
  lemma NoQuestions(form: Form)
    requires QKey(0) !in form
    ensures Assembled(form) == ""
  {
  }

  /** A single answered question gives its answer alone, without a prefix. */
  lemma SingleAnswerIsBare(form: Form, v: string)
    requires Plain(v)
    requires QKey(0) in form && form[QKey(0)] == [v] && OtherKey(0) !in form
    requires QKey(1) !in form
    ensures Assembled(form) == v
  {
    assert QuestionCount(form) == 1 by {
      assert FirstGap(form, 1) == 1;
    }
    OneChoice(form, 0, v);
  }

  /** The form a one-question page posts when "yes" is chosen: its answer is "yes". */
  lemma PostedSingleAnswer()
    ensures Assembled(map["q_0" := ["yes"]]) == "yes"
  {
    SmallKeys();
    SingleAnswerIsBare(map["q_0" := ["yes"]], "yes");
  }

  /** Nothing after the first missing "q_i" is read. */
  lemma StopsAtGap(form: Form, v: string)
    requires Plain(v)
    requires QKey(0) in form && form[QKey(0)] == [v] && OtherKey(0) !in form
    requires QKey(1) !in form && QKey(2) in form
    ensures Assembled(form) == v
  {
    SingleAnswerIsBare(form, v);
  }

  lemma TwoLines(a: string, b: string, h: string)
    ensures Compose([a, b], [h, ""]) == Line(a, h, 0) + "\n" + "Q2: " + b
  {
    assert Decimal(2) == "2";
    assert "Q" + "2" + ": " == "Q2: ";
    var lines := Lines([a, b], [h, ""]);
    assert lines[1] == "Q2: " + b;
    assert lines == [Line(a, h, 0), "Q2: " + b];
  }

  /**
   * With several answers each line is prefixed with its header, or with "Qk: " where k
   * counts the kept answers from 1; a question whose choices are all empty is skipped.
   */
  lemma NumbersCountKeptAnswers(form: Form, a: string, b: string)
    requires Plain(a) && Plain(b)
    requires QKey(0) in form && form[QKey(0)] == [""]
    requires QKey(1) in form && form[QKey(1)] == [a]
    requires QKey(2) in form && form[QKey(2)] == [b]
    requires QKey(3) !in form
    requires forall i | 0 <= i < 3 :: HeaderKey(i) !in form && OtherKey(i) !in form
    ensures Assembled(form) == "Q1: " + a + "\n" + "Q2: " + b
  {
    assert QuestionCount(form) == 3 by {
      assert FirstGap(form, 3) == 3;
      assert FirstGap(form, 2) == 3;
    }
    OneChoice(form, 0, "");
    OneChoice(form, 1, a);
    OneChoice(form, 2, b);
    assert KeptAnswers(form, 1) == [] && KeptHeaders(form, 1) == [];
    assert FormValue(form, HeaderKey(1)) == "";
    assert KeptAnswers(form, 2) == [a];
    assert KeptHeaders(form, 2) == [""];
    TwoLines(a, b, "");
    FirstLine(a);
  }

  lemma FirstLine(a: string)
    ensures Line(a, "", 0) == "Q1: " + a
  {
    assert Decimal(1) == "1";
    assert "Q" + "1" + ": " == "Q1: ";
  }

  /** A header replaces the number of its own line only. */
  lemma HeaderPrefix(form: Form, a: string, b: string, header: string)
    requires Plain(a) && Plain(b) && header != ""
    requires QKey(0) in form && form[QKey(0)] == [a] && HeaderKey(0) in form && form[HeaderKey(0)] == [header]
    requires QKey(1) in form && form[QKey(1)] == [b] && HeaderKey(1) !in form
    requires QKey(2) !in form
    requires OtherKey(0) !in form && OtherKey(1) !in form
    ensures Assembled(form) == header + ": " + a + "\n" + "Q2: " + b
  {
    assert QuestionCount(form) == 2 by {
      assert FirstGap(form, 2) == 2;
    }
    OneChoice(form, 0, a);
    OneChoice(form, 1, b);
    assert KeptAnswers(form, 1) == [a] && KeptHeaders(form, 1) == [header];
    TwoLines(a, b, header);
  }

  /** The "__other__" choice stands for the trimmed free text, and is dropped when it is blank. */
  lemma OtherChoiceText()
    ensures Parts([OtherChoice], "x") == ["Other: x"]
    ensures Parts([OtherChoice], "") == []
    ensures Parts(["a", "", OtherChoice, "b"], "x") == ["a", "Other: x", "b"]
  {
    assert [OtherChoice][..0] == [];
    assert "Other: " + "x" == "Other: x";
    assert Parts([OtherChoice], "x") == Parts([], "x") + ["Other: x"];
    var vs := ["a", "", OtherChoice, "b"];
    assert vs[..3] == ["a", "", OtherChoice] && vs[..3][..2] == ["a", ""];
    assert vs[..3][..2][..1] == ["a"] && ["a"][..0] == [];
    assert Parts(["a"], "x") == ["a"];
    assert Parts(["a", ""], "x") == ["a"];
    assert Parts(["a", "", OtherChoice], "x") == ["a", "Other: x"];
  }
}
