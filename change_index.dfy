/**
  The changed-line index the `suggest` action builds before it asks for any
  suggestion: every distinct trimmed, non-blank line among the first
  `maxChanges` lines of every changed file, attributed to the file and
  1-based line number where it is first met.

  The source keeps the index in a plain JavaScript object. Here it is an
  insertion-ordered map: a sequence `keys` in insertion order and a `map`
  from key to attribution. Two quirks of the object are not modelled:
  `changedLines[line]` also finds inherited properties, so a line reading
  `constructor` or `toString` is never inserted and `__proto__` is special;
  and `Object.keys` lists integer-like keys first, in numeric order, before
  the others in insertion order.
*/
module ChangeIndex {
  import opened Text
  import opened Flatten

  /** One entry of the version-control status together with the text of the
      file: its path, its working-directory status character (a space means
      unmodified in the working tree) and its contents. */
  datatype ChangedFile = ChangedFile(path: string, workingDir: char, contents: string)

  /** Where a line was first seen: the file path and the 1-based line number. */
  datatype Attribution = Attribution(file: string, lineNumber: nat)

  /** One scanned line: where it is and its trimmed text. */
  datatype Cell = Cell(at: Attribution, text: string)

  /** The files the action scans: those whose working-directory status is
      not a space, in status order. */
  function Changed(files: seq<ChangedFile>): (r: seq<ChangedFile>)
    ensures |r| <= |files|
    ensures forall f <- r :: f in files && f.workingDir != ' '
    ensures forall f <- files :: f.workingDir != ' ' ==> f in r
    decreases |files|
  {
    if files == [] then []
    else if files[0].workingDir != ' ' then [files[0]] + Changed(files[1..])
    else Changed(files[1..])
  }

  /** Filtering distributes over concatenation, so the filter keeps the
      order of the status list. */
  lemma {:induction false} ChangedAppend(a: seq<ChangedFile>, b: seq<ChangedFile>)
    ensures Changed(a + b) == Changed(a) + Changed(b)
    decreases |a|
  {
    if a == [] {
      assert a + b == b;
    } else {
      assert (a + b)[0] == a[0];
      assert (a + b)[1..] == a[1..] + b;
      ChangedAppend(a[1..], b);
    }
  }

  /** No file is left exactly when every file is unmodified in the
      working tree. */
  lemma {:induction false} ChangedEmpty(files: seq<ChangedFile>)
    ensures Changed(files) == [] <==> forall f <- files :: f.workingDir == ' '
    decreases |files|
  {
    if files != [] {
      ChangedEmpty(files[1..]);
      assert forall f <- files :: f == files[0] || f in files[1..];
    }
  }

  /** A file that is unmodified in the working tree contributes nothing,
      wherever it stands in the status list. */
  lemma UnmodifiedFileIgnored(a: seq<ChangedFile>, f: ChangedFile, b: seq<ChangedFile>)
    requires f.workingDir == ' '
    ensures Changed(a + [f] + b) == Changed(a + b)
  {
    assert Changed([f]) == [] by {
      assert [f][1..] == [];
    }
    calc {
      Changed(a + [f] + b);
      { ChangedAppend(a + [f], b); }
      Changed(a + [f]) + Changed(b);
      { ChangedAppend(a, [f]); }
      Changed(a) + Changed(b);
      { ChangedAppend(a, b); }
      Changed(a + b);
    }
  }

  /** `contents.split('\n').slice(0, maxChanges)`: the lines of a file the
      action looks at. */
  function Scanned(f: ChangedFile, maxChanges: nat): seq<string>
  {
    var pieces := Split(f.contents, '\n');
    if |pieces| <= maxChanges then pieces else pieces[..maxChanges]
  }

  /** The scanned lines are the first `maxChanges` lines of the file, or all
      of them when the file has fewer. */
  lemma ScannedIsCappedPrefix(f: ChangedFile, maxChanges: nat)
    ensures var lines, all := Scanned(f, maxChanges), Split(f.contents, '\n');
      && |lines| == (if maxChanges < |all| then maxChanges else |all|)
      && lines == all[..|lines|]
  {
  }

  /** The scanned lines of one file, each with its attribution. */
  ghost function FileCells(f: ChangedFile, maxChanges: nat): (cells: seq<Cell>)
    ensures |cells| == |Scanned(f, maxChanges)|
    ensures forall i :: 0 <= i < |cells| ==> cells[i].at == Attribution(f.path, i + 1)
  {
    var lines := Scanned(f, maxChanges);
    var texts := TrimEach(lines);
    seq(|lines|, i requires 0 <= i < |lines| => Cell(Attribution(f.path, i + 1), texts[i]))
  }

  /** Each line trimmed. (Written recursively rather than as a
      comprehension, so that reasoning about one cell does not unfold `trim`
      on every other.) */
  ghost function TrimEach(lines: seq<string>): (texts: seq<string>)
    ensures |texts| == |lines|
    decreases |lines|
  {
    if lines == [] then [] else [Trim(lines[0])] + TrimEach(lines[1..])
  }

  lemma {:induction false} TrimEachAt(lines: seq<string>, i: nat)
    requires i < |lines|
    ensures TrimEach(lines)[i] == Trim(lines[i])
    decreases i
  {
    if i > 0 {
      TrimEachAt(lines[1..], i - 1);
    }
  }

  /** Cell `i` of a file is its line `i + 1`, trimmed. */
  lemma FileCellAt(f: ChangedFile, maxChanges: nat, i: nat)
    requires i < |Scanned(f, maxChanges)|
    ensures FileCells(f, maxChanges)[i] == Cell(Attribution(f.path, i + 1), Trim(Scanned(f, maxChanges)[i]))
  {
    TrimEachAt(Scanned(f, maxChanges), i);
  }

  /** The scanned lines of each file, file by file. */
  ghost function Blocks(files: seq<ChangedFile>, maxChanges: nat): (blocks: seq<seq<Cell>>)
    ensures |blocks| == |files|
    ensures forall j :: 0 <= j < |files| ==> blocks[j] == FileCells(files[j], maxChanges)
  {
    seq(|files|, j requires 0 <= j < |files| => FileCells(files[j], maxChanges))
  }

  /** All scanned lines of all files, in scanning order: file by file, and
      line by line within a file. */
  ghost function Cells(files: seq<ChangedFile>, maxChanges: nat): seq<Cell>
  {
    Concat(Blocks(files, maxChanges))
  }

  /** The position of the first scanned line whose trimmed text is `k`, or
      the number of scanned lines when there is none. */
  ghost function FirstCell(cells: seq<Cell>, k: string): (p: nat)
    ensures p <= |cells|
    ensures p < |cells| ==> cells[p].text == k
    ensures forall q :: 0 <= q < p ==> cells[q].text != k
    decreases |cells|
  {
    if cells == [] then 0
    else if cells[0].text == k then 0
    else 1 + FirstCell(cells[1..], k)
  }

  /** `keys` and `index` are the changed-line index of the scanned lines
      `cells`: the keys are exactly the non-blank trimmed texts of the
      cells, in the order of their first appearance, and each key is
      attributed to the cell where it first appears. */
  ghost predicate IndexOf(cells: seq<Cell>, keys: seq<string>, index: map<string, Attribution>)
  {
    && (forall k :: k in index <==> k in keys)
    && (forall k :: k in index <==> k != [] && FirstCell(cells, k) < |cells|)
    && (forall k :: k in index ==> index[k] == cells[FirstCell(cells, k)].at)
    && (forall a, b :: 0 <= a < b < |keys| ==> FirstCell(cells, keys[a]) < FirstCell(cells, keys[b]))
  }

  lemma FirstCellAppend(cells: seq<Cell>, c: Cell, k: string)
    ensures FirstCell(cells + [c], k) ==
      if FirstCell(cells, k) < |cells| then FirstCell(cells, k)
      else if c.text == k then |cells|
      else |cells| + 1
  {
    var p, p' := FirstCell(cells, k), FirstCell(cells + [c], k);
    if p < |cells| {
      assert (cells + [c])[p] == cells[p];
    } else if c.text == k {
      assert (cells + [c])[|cells|] == c;
    }
  }

  /** Scanning a line whose trimmed text is non-blank and not yet a key
      adds it as the last key, attributed to that line. */
  lemma IndexAppendNew(cells: seq<Cell>, keys: seq<string>, index: map<string, Attribution>, c: Cell)
    requires IndexOf(cells, keys, index)
    requires c.text != [] && c.text !in index
    ensures IndexOf(cells + [c], keys + [c.text], index[c.text := c.at])
  {
    var k, cells', keys', index' := c.text, cells + [c], keys + [c.text], index[c.text := c.at];
    forall k' ensures FirstCell(cells', k') ==
      if FirstCell(cells, k') < |cells| then FirstCell(cells, k')
      else if k == k' then |cells| else |cells| + 1
    {
      FirstCellAppend(cells, c, k');
    }
    forall k' | k' in index' ensures index'[k'] == cells'[FirstCell(cells', k')].at {
      if k' != k {
        assert cells'[FirstCell(cells, k')] == cells[FirstCell(cells, k')];
      }
    }
    forall a, b | 0 <= a < b < |keys'|
      ensures FirstCell(cells', keys'[a]) < FirstCell(cells', keys'[b])
    {
      assert keys'[a] == keys[a] && keys[a] in index;
      if b < |keys| {
        assert keys'[b] == keys[b] && keys[b] in index;
      }
    }
  }

  /** Scanning a line whose trimmed text is blank or already a key leaves
      the index as it is. */
  lemma IndexAppendOld(cells: seq<Cell>, keys: seq<string>, index: map<string, Attribution>, c: Cell)
    requires IndexOf(cells, keys, index)
    requires c.text == [] || c.text in index
    ensures IndexOf(cells + [c], keys, index)
  {
    var cells' := cells + [c];
    forall k' ensures FirstCell(cells', k') ==
      if FirstCell(cells, k') < |cells| then FirstCell(cells, k')
      else if c.text == k' then |cells| else |cells| + 1
    {
      FirstCellAppend(cells, c, k');
    }
    forall k' | k' in index ensures index[k'] == cells'[FirstCell(cells', k')].at {
      assert cells'[FirstCell(cells, k')] == cells[FirstCell(cells, k')];
    }
  }

  /** One step of the scan of a file: cell `i` of the file's cells extends
      the index of what was scanned before it exactly when its text is
      non-blank and not yet a key. */
  lemma IndexExtend(before: seq<Cell>, cells: seq<Cell>, i: nat, keys: seq<string>, index: map<string, Attribution>)
    requires i < |cells|
    requires IndexOf(before + cells[..i], keys, index)
    ensures var c := cells[i];
      if c.text != [] && c.text !in index
      then IndexOf(before + cells[..i + 1], keys + [c.text], index[c.text := c.at])
      else IndexOf(before + cells[..i + 1], keys, index)
  {
    var c := cells[i];
    assert before + cells[..i + 1] == before + cells[..i] + [c];
    if c.text != [] && c.text !in index {
      IndexAppendNew(before + cells[..i], keys, index, c);
    } else {
      IndexAppendOld(before + cells[..i], keys, index, c);
    }
  }

  /** The index-building loops of the action: the outer `for` loop over
      the changed files. The result is the changed-line index of all
      scanned lines. */
  method BuildIndex(changed: seq<ChangedFile>, maxChanges: nat)
    returns (keys: seq<string>, index: map<string, Attribution>)
    ensures IndexOf(Cells(changed, maxChanges), keys, index)
  {
    ghost var blocks, all := Blocks(changed, maxChanges), Cells(changed, maxChanges);
    keys, index := [], map[];
    IndexOfNothing(all);
    for j := 0 to |changed|
      invariant Start(blocks, j) <= |all|
      invariant IndexOf(all[..Start(blocks, j)], keys, index)
    {
      keys, index := ScanFile(changed[j], maxChanges, all[..Start(blocks, j)], keys, index);
      NextFile(changed, maxChanges, j, keys, index);
    }
    AllFilesScanned(changed, maxChanges, keys, index);
  }

  /** Once every file is scanned, the lines scanned so far are all of them. */
  lemma AllFilesScanned(files: seq<ChangedFile>, maxChanges: nat, keys: seq<string>, index: map<string, Attribution>)
    requires Start(Blocks(files, maxChanges), |files|) <= |Cells(files, maxChanges)|
    requires IndexOf(Cells(files, maxChanges)[..Start(Blocks(files, maxChanges), |files|)], keys, index)
    ensures IndexOf(Cells(files, maxChanges), keys, index)
  {
    var all := Cells(files, maxChanges);
    StartBounded(Blocks(files, maxChanges), |files|);
    assert all[..|all|] == all;
  }

  /** Before anything is scanned the index is empty. */
  lemma IndexOfNothing(all: seq<Cell>)
    ensures IndexOf(all[..0], [], map[])
  {
    assert all[..0] == [];
  }

  /** The lines scanned up to and including file `j` are those scanned
      before it followed by the file's own. */
  lemma NextFile(files: seq<ChangedFile>, maxChanges: nat, j: nat, keys: seq<string>, index: map<string, Attribution>)
    requires j < |files|
    requires Start(Blocks(files, maxChanges), j) <= |Cells(files, maxChanges)|
    requires IndexOf(Cells(files, maxChanges)[..Start(Blocks(files, maxChanges), j)] + FileCells(files[j], maxChanges), keys, index)
    ensures Start(Blocks(files, maxChanges), j + 1) <= |Cells(files, maxChanges)|
    ensures IndexOf(Cells(files, maxChanges)[..Start(Blocks(files, maxChanges), j + 1)], keys, index)
  {
    var blocks := Blocks(files, maxChanges);
    PrefixStep(blocks, j);
    assert blocks[j] == FileCells(files[j], maxChanges);
  }

  /** The inner `for` loop of the action over the scanned lines of one
      file: each trimmed, non-blank line not yet in the index is added with
      its attribution. The index of the lines scanned before the file
      becomes the index of those lines followed by the file's lines. */
  method ScanFile(file: ChangedFile, maxChanges: nat, ghost before: seq<Cell>,
                  keys0: seq<string>, index0: map<string, Attribution>)
    returns (keys: seq<string>, index: map<string, Attribution>)
    requires IndexOf(before, keys0, index0)
    ensures IndexOf(before + FileCells(file, maxChanges), keys, index)
  {
    ghost var cells := FileCells(file, maxChanges);
    var lines := Scanned(file, maxChanges);
    keys, index := keys0, index0;
    assert before + cells[..0] == before;
    for i := 0 to |lines|
      invariant IndexOf(before + cells[..i], keys, index)
    {
      var line := Trim(lines[i]);
      FileCellAt(file, maxChanges, i);
      IndexExtend(before, cells, i, keys, index);
      if line != [] && line !in index {
        keys := keys + [line];
        index := index[line := Attribution(file.path, i + 1)];
      }
    }
    assert cells[..|lines|] == cells;
  }

  /** Position `p` among all scanned lines is line `i` of file `j`, whose
      cell holds its trimmed text. */
  lemma CellOrigin(files: seq<ChangedFile>, maxChanges: nat, p: nat) returns (j: nat, i: nat)
    requires p < |Cells(files, maxChanges)|
    ensures j < |files| && i < |Scanned(files[j], maxChanges)|
    ensures p == Start(Blocks(files, maxChanges), j) + i
    ensures Cells(files, maxChanges)[p] == Cell(Attribution(files[j].path, i + 1), Trim(Scanned(files[j], maxChanges)[i]))
  {
    var blocks := Blocks(files, maxChanges);
    j, i := ConcatOrigin(blocks, p);
    CellAt(files, maxChanges, j, i);
  }

  /** Line `i` of file `j` sits at its file's start plus `i` among all
      scanned lines. */
  lemma CellAt(files: seq<ChangedFile>, maxChanges: nat, j: nat, i: nat)
    requires j < |files| && i < |Scanned(files[j], maxChanges)|
    ensures Start(Blocks(files, maxChanges), j) + i < |Cells(files, maxChanges)|
    ensures Cells(files, maxChanges)[Start(Blocks(files, maxChanges), j) + i]
      == Cell(Attribution(files[j].path, i + 1), Trim(Scanned(files[j], maxChanges)[i]))
  {
    var blocks := Blocks(files, maxChanges);
    ConcatAt(blocks, j, i);
    FileCellAt(files[j], maxChanges, i);
  }

  // What the index promises about the files it was built from.

  /** Every key is non-blank, is already trimmed and holds no line break. */
  lemma KeysTrimmed(files: seq<ChangedFile>, maxChanges: nat, keys: seq<string>, index: map<string, Attribution>, k: string)
    requires IndexOf(Cells(files, maxChanges), keys, index)
    requires k in index
    ensures k != [] && Trim(k) == k
    ensures '\n' !in k
  {
    var cells := Cells(files, maxChanges);
    var p := FirstCell(cells, k);
    var j, i := CellOrigin(files, maxChanges, p);
    var line := Scanned(files[j], maxChanges)[i];
    assert k == cells[p].text == Trim(line);
    TrimIdempotent(line);
    ScannedIsCappedPrefix(files[j], maxChanges);
    SplitPiecesExcludeSeparator(files[j].contents, '\n');
    assert line in Split(files[j].contents, '\n');
    InfixExcludes(line, k, '\n');
  }

  /** What `trim` keeps of a line is part of the line. */
  lemma InfixExcludes(line: string, k: string, c: char)
    requires k == Trim(line) && c !in line
    ensures c !in k
  {
    TrimShape(line);
    var lead := |line| - |TrimStart(line)|;
    forall x | 0 <= x < |k| ensures k[x] != c {
      assert k[x] == line[lead + x];
    }
  }

  /** Every key occurs once in the key order, which lists each key of the map. */
  lemma KeysDistinct(cells: seq<Cell>, keys: seq<string>, index: map<string, Attribution>)
    requires IndexOf(cells, keys, index)
    ensures forall a, b :: 0 <= a < b < |keys| ==> keys[a] != keys[b]
    ensures |keys| == |index|
  {
    assert forall a, b :: 0 <= a < b < |keys| ==> keys[a] != keys[b] by {
      forall a, b | 0 <= a < b < |keys| ensures keys[a] != keys[b] {
        assert FirstCell(cells, keys[a]) < FirstCell(cells, keys[b]);
      }
    }
    DistinctCardinality(keys);
    assert index.Keys == (set k | k in keys);
  }

  lemma {:induction false} DistinctCardinality(s: seq<string>)
    requires forall a, b :: 0 <= a < b < |s| ==> s[a] != s[b]
    ensures |(set k | k in s)| == |s|
    decreases |s|
  {
    if s != [] {
      var init := s[..|s| - 1];
      DistinctCardinality(init);
      assert (set k | k in s) == (set k | k in init) + {s[|s| - 1]};
    }
  }

  /** Attribution is sound and respects the cap: a key's attribution names a
      scanned file, a line number between 1 and the number of lines scanned
      in that file (at most `maxChanges`), and that line trims to the key. */
  lemma AttributionSound(files: seq<ChangedFile>, maxChanges: nat, keys: seq<string>, index: map<string, Attribution>, k: string)
    requires IndexOf(Cells(files, maxChanges), keys, index)
    requires k in index
    ensures exists j :: (0 <= j < |files|
      && files[j].path == index[k].file
      && 1 <= index[k].lineNumber <= |Scanned(files[j], maxChanges)|
      && index[k].lineNumber <= maxChanges
      && Trim(Scanned(files[j], maxChanges)[index[k].lineNumber - 1]) == k)
  {
    var cells := Cells(files, maxChanges);
    var p := FirstCell(cells, k);
    var j, i := CellOrigin(files, maxChanges, p);
    ScannedIsCappedPrefix(files[j], maxChanges);
  }

  /** Completeness: every non-blank trimmed line among the scanned lines of
      every file is a key. */
  lemma ScannedLineIsKey(files: seq<ChangedFile>, maxChanges: nat, keys: seq<string>, index: map<string, Attribution>, j: nat, i: nat)
    requires IndexOf(Cells(files, maxChanges), keys, index)
    requires j < |files| && i < |Scanned(files[j], maxChanges)|
    requires Trim(Scanned(files[j], maxChanges)[i]) != []
    ensures Trim(Scanned(files[j], maxChanges)[i]) in index
    ensures Trim(Scanned(files[j], maxChanges)[i]) in keys
  {
    CellAt(files, maxChanges, j, i);
  }

  /** The cap bounds the index: there are no more keys than scanned lines,
      and no more scanned lines than `maxChanges` per changed file. */
  lemma KeysBounded(files: seq<ChangedFile>, maxChanges: nat, keys: seq<string>, index: map<string, Attribution>)
    requires IndexOf(Cells(files, maxChanges), keys, index)
    ensures |keys| <= |Cells(files, maxChanges)| <= |files| * maxChanges
  {
    var cells, blocks := Cells(files, maxChanges), Blocks(files, maxChanges);
    if keys != [] {
      var last := |keys| - 1;
      assert keys[last] in index;
      KeyPositionsGrow(cells, keys, last);
    }
    forall b <- blocks ensures |b| <= maxChanges {
      var j :| 0 <= j < |blocks| && blocks[j] == b;
      ScannedIsCappedPrefix(files[j], maxChanges);
    }
    StartBounded(blocks, |files|);
    StartAtMost(blocks, |files|, maxChanges);
  }

  /** Keys whose first cells are in ascending order sit at least as far
      into the cells as into the keys. */
  lemma {:induction false} KeyPositionsGrow(cells: seq<Cell>, keys: seq<string>, n: nat)
    requires forall a, b :: 0 <= a < b < |keys| ==> FirstCell(cells, keys[a]) < FirstCell(cells, keys[b])
    requires n < |keys|
    ensures FirstCell(cells, keys[n]) >= n
    decreases n
  {
    if n > 0 {
      KeyPositionsGrow(cells, keys, n - 1);
      assert FirstCell(cells, keys[n - 1]) < FirstCell(cells, keys[n]);
    }
  }

  /** First occurrence wins: a line is attributed to the earliest place it
      appears, in file order and then line order; later appearances in the
      same file or in later files do not replace it. */
  lemma FirstOccurrenceWins(files: seq<ChangedFile>, maxChanges: nat, keys: seq<string>, index: map<string, Attribution>, j: nat, i: nat)
    requires IndexOf(Cells(files, maxChanges), keys, index)
    requires j < |files| && i < |Scanned(files[j], maxChanges)|
    requires Trim(Scanned(files[j], maxChanges)[i]) != []
    requires forall j', i' ::
      0 <= j' < |files| && 0 <= i' < |Scanned(files[j'], maxChanges)| && (j' < j || (j' == j && i' < i))
      ==> Trim(Scanned(files[j'], maxChanges)[i']) != Trim(Scanned(files[j], maxChanges)[i])
    ensures var k := Trim(Scanned(files[j], maxChanges)[i]);
      k in index && index[k] == Attribution(files[j].path, i + 1)
  {
    var cells, blocks := Cells(files, maxChanges), Blocks(files, maxChanges);
    var k := Trim(Scanned(files[j], maxChanges)[i]);
    var here := Start(blocks, j) + i;
    CellAt(files, maxChanges, j, i);
    forall q | 0 <= q < here ensures cells[q].text != k {
      var j2, i2 := CellOrigin(files, maxChanges, q);
      if j < j2 {
        StartMonotone(blocks, j, j2);
      } else if j2 < j {
        StartMonotone(blocks, j2, j);
      }
      assert j2 < j || (j2 == j && i2 < i);
    }
    FirstCellAt(cells, here, k);
  }

  /** The first cell with text `k` is the one at `here` when no cell before
      it has that text. */
  lemma FirstCellAt(cells: seq<Cell>, here: nat, k: string)
    requires here < |cells| && cells[here].text == k
    requires forall q :: 0 <= q < here ==> cells[q].text != k
    ensures FirstCell(cells, k) == here
  {
    var p := FirstCell(cells, k);
    assert p <= here;
    assert !(p < here);
  }

  /** The index is determined by the scanned lines: building it again from
      an unchanged working tree yields the same keys, in the same order, with
      the same attributions. */
  lemma IndexOfUnique(cells: seq<Cell>, keys1: seq<string>, index1: map<string, Attribution>,
                      keys2: seq<string>, index2: map<string, Attribution>)
    requires IndexOf(cells, keys1, index1) && IndexOf(cells, keys2, index2)
    ensures keys1 == keys2 && index1 == index2
  {
    assert index1.Keys == index2.Keys;
    SortedUnique(cells, keys1, keys2);
  }

  lemma {:induction false} SortedUnique(cells: seq<Cell>, s1: seq<string>, s2: seq<string>)
    requires forall a, b :: 0 <= a < b < |s1| ==> FirstCell(cells, s1[a]) < FirstCell(cells, s1[b])
    requires forall a, b :: 0 <= a < b < |s2| ==> FirstCell(cells, s2[a]) < FirstCell(cells, s2[b])
    requires forall k :: k in s1 <==> k in s2
    ensures s1 == s2
    decreases |s1|
  {
    EmptyShared(s1, s2);
    if s1 != [] {
      assert s1[0] in s2 && s2 != [];
      assert s2[0] in s1;
      SortedHead(cells, s1, s2);
      forall k ensures k in s1[1..] <==> k in s2[1..] {
        SortedTail(cells, s1, k);
        SortedTail(cells, s2, k);
      }
      SortedUnique(cells, s1[1..], s2[1..]);
      assert s1 == [s1[0]] + s1[1..];
      assert s2 == [s2[0]] + s2[1..];
    }
  }

  /** Sequences with the same elements are empty together. */
  lemma EmptyShared(s1: seq<string>, s2: seq<string>)
    requires forall k :: k in s1 <==> k in s2
    ensures s1 == [] <==> s2 == []
  {
    if s1 != [] {
      assert s1[0] in s1;
    }
    if s2 != [] {
      assert s2[0] in s2;
    }
  }

  /** Two sorted sequences with the same elements start alike. */
  lemma SortedHead(cells: seq<Cell>, s1: seq<string>, s2: seq<string>)
    requires forall a, b :: 0 <= a < b < |s1| ==> FirstCell(cells, s1[a]) < FirstCell(cells, s1[b])
    requires forall a, b :: 0 <= a < b < |s2| ==> FirstCell(cells, s2[a]) < FirstCell(cells, s2[b])
    requires s1 != [] && s2 != [] && s1[0] in s2 && s2[0] in s1
    ensures s1[0] == s2[0]
  {
    var a := IndexIn(s1, s2[0]);
    var b := IndexIn(s2, s1[0]);
  }

  /** In a sorted sequence, the elements after the head are the elements
      other than the head. */
  lemma SortedTail(cells: seq<Cell>, s: seq<string>, k: string)
    requires forall a, b :: 0 <= a < b < |s| ==> FirstCell(cells, s[a]) < FirstCell(cells, s[b])
    requires s != []
    ensures k in s[1..] <==> k in s && k != s[0]
  {
    if k in s && k != s[0] {
      var x := IndexIn(s, k);
      assert s[1..][x - 1] == k;
    }
    if k in s[1..] {
      var x := IndexIn(s[1..], k);
      assert s[x + 1] == k;
      assert FirstCell(cells, s[0]) < FirstCell(cells, s[x + 1]);
    }
  }

  /** A position of an element of a sequence. */
  lemma IndexIn(s: seq<string>, k: string) returns (x: nat)
    requires k in s
    ensures x < |s| && s[x] == k
  {
    x :| 0 <= x < |s| && s[x] == k;
  }
}
