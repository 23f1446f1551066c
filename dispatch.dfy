/**
  The second half of the `suggest` action: one completion request per key
  of the changed-line index, in key order, and the list of suggestions
  made from the replies.

  The completion service is not part of this model. It is a parameter
  `complete` that maps the prompt sent to the reply it produces: either a
  completion text or a failure (a rejected request, a network error, a
  reply without a first choice). Every key yields a different prompt (see
  `PromptsDistinct`), so one function covers every request of a run.
*/
module Dispatch {
  import opened Text
  import opened ChangeIndex

  /** The reply to one completion request. */
  datatype Outcome = Completed(text: string) | Failed

  /** The fixed instructions that open every prompt. */
  const Preamble: string :=
    "Create git commit messages following the conventional commit convention, ensuring they are clear and concise. For each change, provide an explanation. Based on the output from craft a commit message and description. Use present tense, keep lines under 74 characters, and respond in English, change info: "

  /** The prompt sent for a changed line and its attribution: the
      instructions followed by the change information. */
  function Prompt(line: string, at: Attribution): string
  {
    Preamble + ChangeInfo(line, at)
  }

  /** The change information closing a prompt: the line, then the file and
      the line number on lines of their own, and a final line break (so an
      empty last line). */
  function ChangeInfo(line: string, at: Attribution): string
  {
    Join([line, "File: " + at.file, "Line number: " + Decimal(at.lineNumber), ""], '\n')
  }

  /** A suggestion as listed: the trimmed completion text followed by the
      file and line number it is about, in parentheses. */
  function Render(message: string, at: Attribution): string
  {
    message + " (" + at.file + ":" + Decimal(at.lineNumber) + ")"
  }

  /** The reply to the request for key `k`. */
  function Reply(k: string, index: map<string, Attribution>, complete: string -> Outcome): Outcome
    requires k in index
  {
    complete(Prompt(k, index[k]))
  }

  /** The suggestions for `keys`, in key order: one per successful request,
      none for a failed one. */
  function Suggestions(keys: seq<string>, index: map<string, Attribution>, complete: string -> Outcome): (messages: seq<string>)
    requires forall k <- keys :: k in index
    ensures |messages| <= |keys|
    decreases |keys|
  {
    if keys == [] then []
    else
      var init, k := Suggestions(keys[..|keys| - 1], index, complete), keys[|keys| - 1];
      match Reply(k, index, complete)
      case Completed(text) => init + [Render(Trim(text), index[k])]
      case Failed => init
  }

  /** The number of failed requests for `keys`. */
  function FailureCount(keys: seq<string>, index: map<string, Attribution>, complete: string -> Outcome): (n: nat)
    requires forall k <- keys :: k in index
    ensures n <= |keys|
    decreases |keys|
  {
    if keys == [] then 0
    else
      var init := FailureCount(keys[..|keys| - 1], index, complete);
      if Reply(keys[|keys| - 1], index, complete).Failed? then init + 1 else init
  }

  /** The positions in `keys` whose request succeeded, in ascending order. */
  ghost function Succeeded(keys: seq<string>, index: map<string, Attribution>, complete: string -> Outcome): seq<nat>
    requires forall k <- keys :: k in index
    decreases |keys|
  {
    if keys == [] then []
    else
      var init := Succeeded(keys[..|keys| - 1], index, complete);
      if Reply(keys[|keys| - 1], index, complete).Completed? then init + [|keys| - 1] else init
  }

  /** The dispatch loop of the action: for each key in order, build the
      prompt, ask for a completion and, when the request succeeds, add the
      rendered suggestion; a failed request is counted and the loop goes
      on with the next key. */
  method CollectSuggestions(keys: seq<string>, index: map<string, Attribution>, complete: string -> Outcome)
    returns (messages: seq<string>, failures: nat)
    requires forall k <- keys :: k in index
    ensures messages == Suggestions(keys, index, complete)
    ensures failures == FailureCount(keys, index, complete)
    ensures |messages| + failures == |keys|
  {
    messages, failures := [], 0;
    for p := 0 to |keys|
      invariant messages == Suggestions(keys[..p], index, complete)
      invariant failures == FailureCount(keys[..p], index, complete)
      invariant |messages| + failures == p
    {
      assert keys[..p + 1][..p] == keys[..p];
      var line := keys[p];
      var prompt := Prompt(line, index[line]);
      var outcome := complete(prompt);
      match outcome
      case Completed(text) =>
        var message := Trim(text);
        messages := messages + [Render(message, index[line])];
      case Failed =>
        failures := failures + 1;
    }
    assert keys[..|keys|] == keys;
  }

  /** Every request ends in a suggestion or in a failure, never both. */
  lemma {:induction false} OutcomesAccounted(keys: seq<string>, index: map<string, Attribution>, complete: string -> Outcome)
    requires forall k <- keys :: k in index
    ensures |Suggestions(keys, index, complete)| + FailureCount(keys, index, complete) == |keys|
    ensures |Succeeded(keys, index, complete)| == |Suggestions(keys, index, complete)|
    decreases |keys|
  {
    if keys != [] {
      OutcomesAccounted(keys[..|keys| - 1], index, complete);
    }
  }

  /** The suggestions of a sequence of keys split at any point into the
      suggestions of the two parts: each request is handled on its own. */
  lemma {:induction false} SuggestionsAppend(a: seq<string>, b: seq<string>, index: map<string, Attribution>, complete: string -> Outcome)
    requires forall k <- a + b :: k in index
    ensures Suggestions(a + b, index, complete) == Suggestions(a, index, complete) + Suggestions(b, index, complete)
    decreases |b|
  {
    if b == [] {
      assert a + b == a;
    } else {
      var b' := b[..|b| - 1];
      assert (a + b)[..|a + b| - 1] == a + b';
      assert (a + b)[|a + b| - 1] == b[|b| - 1];
      SuggestionsAppend(a, b', index, complete);
    }
  }

  /** A failed request does not abort the loop: the suggestions are those
      of the keys before it followed by those of the keys after it. */
  lemma FailureDoesNotAbort(keys: seq<string>, index: map<string, Attribution>, complete: string -> Outcome, p: nat)
    requires forall k <- keys :: k in index
    requires p < |keys| && Reply(keys[p], index, complete).Failed?
    ensures Suggestions(keys, index, complete)
      == Suggestions(keys[..p], index, complete) + Suggestions(keys[p + 1..], index, complete)
  {
    assert keys == keys[..p] + [keys[p]] + keys[p + 1..];
    SuggestionsAppend(keys[..p] + [keys[p]], keys[p + 1..], index, complete);
    SuggestionsAppend(keys[..p], [keys[p]], index, complete);
    assert [keys[p]][..0] == [];
  }

  /** The successful positions are positions of `keys` whose request
      succeeded, in ascending order. */
  lemma {:induction false} SucceededSound(keys: seq<string>, index: map<string, Attribution>, complete: string -> Outcome)
    requires forall k <- keys :: k in index
    ensures forall m :: 0 <= m < |Succeeded(keys, index, complete)| ==>
      Succeeded(keys, index, complete)[m] < |keys|
      && Reply(keys[Succeeded(keys, index, complete)[m]], index, complete).Completed?
    ensures forall m, n :: 0 <= m < n < |Succeeded(keys, index, complete)| ==>
      Succeeded(keys, index, complete)[m] < Succeeded(keys, index, complete)[n]
    decreases |keys|
  {
    if keys != [] {
      var init := keys[..|keys| - 1];
      SucceededSound(init, index, complete);
      var ok0 := Succeeded(init, index, complete);
      forall m | 0 <= m < |ok0| ensures keys[ok0[m]] == init[ok0[m]] { }
    }
  }

  /** Every position whose request succeeded is a successful position. */
  lemma {:induction false} SucceededComplete(keys: seq<string>, index: map<string, Attribution>, complete: string -> Outcome, p: nat)
    requires forall k <- keys :: k in index
    requires p < |keys| && Reply(keys[p], index, complete).Completed?
    ensures p in Succeeded(keys, index, complete)
    decreases |keys|
  {
    var init := keys[..|keys| - 1];
    if p < |keys| - 1 {
      assert keys[p] == init[p];
      SucceededComplete(init, index, complete, p);
    }
  }

  /** The suggestions, exactly: the `m`-th suggestion belongs to the `m`-th
      successful request, in key order, and is its trimmed completion text
      followed by the key's file and line number. */
  lemma {:induction false} SuggestionsExactly(keys: seq<string>, index: map<string, Attribution>, complete: string -> Outcome, m: nat)
    requires forall k <- keys :: k in index
    requires m < |Succeeded(keys, index, complete)|
    ensures |Suggestions(keys, index, complete)| == |Succeeded(keys, index, complete)|
    ensures var p := Succeeded(keys, index, complete)[m];
      p < |keys| && Reply(keys[p], index, complete).Completed?
      && Suggestions(keys, index, complete)[m] == Render(Trim(Reply(keys[p], index, complete).text), index[keys[p]])
    decreases |keys|
  {
    OutcomesAccounted(keys, index, complete);
    SucceededSound(keys, index, complete);
    var init, last := keys[..|keys| - 1], |keys| - 1;
    var ok0 := Succeeded(init, index, complete);
    if m < |ok0| {
      SuggestionsExactly(init, index, complete, m);
      assert Succeeded(keys, index, complete)[m] == ok0[m];
      assert keys[ok0[m]] == init[ok0[m]];
    }
  }

  /** A key never contains a line break, so the change information can be
      read back line by line: the key, the file, the line number and an
      empty rest. */
  lemma ChangeInfoLines(line: string, at: Attribution)
    requires '\n' !in line && '\n' !in at.file
    ensures Split(ChangeInfo(line, at), '\n')
      == [line, "File: " + at.file, "Line number: " + Decimal(at.lineNumber), ""]
  {
    var pieces := [line, "File: " + at.file, "Line number: " + Decimal(at.lineNumber), ""];
    assert forall piece <- pieces :: '\n' !in piece;
    SplitJoin(pieces, '\n');
  }

  /** Different keys are sent in different prompts, whatever their
      attributions. */
  lemma PromptsDistinct(k1: string, a1: Attribution, k2: string, a2: Attribution)
    requires '\n' !in k1 && '\n' !in k2 && k1 != k2
    ensures Prompt(k1, a1) != Prompt(k2, a2)
  {
    var c1, c2 := ChangeInfo(k1, a1), ChangeInfo(k2, a2);
    var p1 := [k1, "File: " + a1.file, "Line number: " + Decimal(a1.lineNumber), ""];
    var p2 := [k2, "File: " + a2.file, "Line number: " + Decimal(a2.lineNumber), ""];
    assert c1 == k1 + "\n" + Join(p1[1..], '\n');
    assert c2 == k2 + "\n" + Join(p2[1..], '\n');
    SplitFirstSeparator(k1, Join(p1[1..], '\n'), '\n');
    SplitFirstSeparator(k2, Join(p2[1..], '\n'), '\n');
    assert Split(c1, '\n')[0] != Split(c2, '\n')[0];
    PrefixCancel(Preamble, c1, c2);
  }

  lemma PrefixCancel(pre: string, x: string, y: string)
    requires x != y
    ensures pre + x != pre + y
  {
    assert (pre + x)[|pre|..] == x;
    assert (pre + y)[|pre|..] == y;
  }

  /** The longest suffix of `s` made of decimal digits. */
  function DigitSuffix(s: string): (d: string)
    ensures IsDigits(d) && |d| <= |s| && d == s[|s| - |d|..]
    decreases |s|
  {
    if s != [] && '0' <= s[|s| - 1] <= '9' then DigitSuffix(s[..|s| - 1]) + [s[|s| - 1]] else []
  }

  lemma {:induction false} DigitSuffixOf(x: string, d: string)
    requires IsDigits(d)
    requires x == [] || !('0' <= x[|x| - 1] <= '9')
    ensures DigitSuffix(x + d) == d
    decreases |d|
  {
    if d == [] {
      assert x + d == x;
    } else {
      var d' := d[..|d| - 1];
      assert (x + d)[..|x + d| - 1] == x + d';
      DigitSuffixOf(x, d');
    }
  }

  /** A suggestion can be read from its end: it closes with a parenthesis,
      the digits before it are the line number, and what precedes them is
      the message, the opening parenthesis, the file and a colon. */
  lemma RenderReadBack(message: string, at: Attribution)
    ensures var r := Render(message, at);
      var body := r[..|r| - 1];
      var digits := DigitSuffix(body);
      && r[|r| - 1] == ')'
      && digits == Decimal(at.lineNumber)
      && ParseDecimal(digits) == at.lineNumber
      && body[..|body| - |digits|] == message + " (" + at.file + ":"
  {
    var r := Render(message, at);
    var head := message + " (" + at.file + ":";
    var d := Decimal(at.lineNumber);
    assert r == head + d + ")";
    assert r[..|r| - 1] == head + d;
    DigitSuffixOf(head, d);
    DecimalRoundTrip(at.lineNumber);
  }

  /** How a suggestion looks for the line `feat: add parser` first seen at
      line 5 of `src/a.ts`. */
  lemma RenderExample()
    ensures Render("feat: add parser", Attribution("src/a.ts", 5)) == "feat: add parser (src/a.ts:5)"
  {
    assert Decimal(5) == "5";
  }
}
