/**
  The `suggest` action as a whole: filter the status list down to the
  files changed in the working tree, stop when there are none, build the
  changed-line index, ask for one suggestion per indexed line and list the
  suggestions.

  Reading the status and the files is not part of this model: the status
  list, with each file's contents already read, is the input `files`. The
  completion service is the parameter `complete` (see the Dispatch
  module). What the action prints is the result of `Output`.
*/
module Suggest {
  import opened Text
  import opened ChangeIndex
  import opened Dispatch

  datatype Option<T> = None | Some(value: T)

  /** How many lines of each file are scanned when no limit is given. */
  const DefaultMaxChanges: nat := 100

  /** The line limit of a run: the one given, or the default. The option
      arrives as a string, so an explicit `0` is kept and scans nothing. */
  function MaxChanges(option: Option<nat>): nat
  {
    match option
    case Some(n) => n
    case None => DefaultMaxChanges
  }

  /** What a run produces: nothing to do, or the index that was built, the
      suggestions in order and the number of failed requests. */
  datatype Report =
    | NoChanges
    | Suggested(keys: seq<string>, index: map<string, Attribution>, messages: seq<string>, failures: nat)

  /** The action. */
  method Suggest(files: seq<ChangedFile>, maxChanges: Option<nat>, complete: string -> Outcome)
    returns (r: Report)
    ensures r.NoChanges? <==> Changed(files) == []
    ensures r.Suggested? ==>
      && IndexOf(Cells(Changed(files), MaxChanges(maxChanges)), r.keys, r.index)
      && (forall k <- r.keys :: k in r.index)
      && r.messages == Suggestions(r.keys, r.index, complete)
      && r.failures == FailureCount(r.keys, r.index, complete)
  {
    var max := MaxChanges(maxChanges);
    var changed := Changed(files);
    if |changed| == 0 {
      return NoChanges;
    }
    var keys, index := BuildIndex(changed, max);
    var messages, failures := CollectSuggestions(keys, index, complete);
    r := Suggested(keys, index, messages, failures);
  }

  /** The lines the action prints (the logs of failed requests, printed
      before them, are left out). */
  function Output(r: Report): (lines: seq<string>)
    ensures |lines| == (if r.NoChanges? then 1 else 2)
  {
    match r
    case NoChanges => ["No changes found in Git project"]
    case Suggested(_, _, messages, _) => ["Commit message suggestions:", Join(messages, '\n')]
  }

  /** A working tree in which every file is unmodified yields no index and
      no suggestions, whatever the files hold. */
  lemma NothingChanged(files: seq<ChangedFile>, r: Report)
    requires forall f <- files :: f.workingDir == ' '
    requires r.NoChanges? <==> Changed(files) == []
    ensures r.NoChanges? && Output(r) == ["No changes found in Git project"]
  {
    ChangedEmpty(files);
  }

  /** When no suggestion contains a line break, the printed list can be
      split back into the suggestions, one per line. */
  lemma OutputListsSuggestions(r: Report)
    requires r.Suggested? && r.messages != []
    requires forall m <- r.messages :: '\n' !in m
    ensures Split(Output(r)[1], '\n') == r.messages
  {
    SplitJoin(r.messages, '\n');
  }

  /** Each key of a run is sent in a prompt of its own: no two keys share a
      prompt, so no reply is reused for another line. */
  lemma EachKeyItsOwnPrompt(files: seq<ChangedFile>, maxChanges: nat, keys: seq<string>, index: map<string, Attribution>, a: nat, b: nat)
    requires IndexOf(Cells(files, maxChanges), keys, index)
    requires a < b < |keys|
    ensures keys[a] in index && keys[b] in index
    ensures Prompt(keys[a], index[keys[a]]) != Prompt(keys[b], index[keys[b]])
  {
    KeysDistinct(Cells(files, maxChanges), keys, index);
    KeysTrimmed(files, maxChanges, keys, index, keys[a]);
    KeysTrimmed(files, maxChanges, keys, index, keys[b]);
    PromptsDistinct(keys[a], index[keys[a]], keys[b], index[keys[b]]);
  }
}
