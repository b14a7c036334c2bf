/**
 * `SimpleMapper` (`invertedindex/src/main/java/org/example/inv2/SimpleMapper.java`):
 * for every token of every input line it writes `(token, {filename: 1})`,
 * reusing one `MapWritable` it clears before each record.
 */
module SimpleMapping {
  import opened Chars
  import opened Strings
  import opened Postings
  import opened Tokenizer
  import opened MapReduce

  class SimpleMapper {
    /** The base name of the split's file, fixed by `setup`. */
    var filename: string
    /** The reused `fileMap` value object. */
    var fileMap: Postings
    /** Everything passed to `Context.write` so far. */
    var written: seq<Record>
    /** The lines `map` has been given so far. */
    ghost var seen: seq<string>

    ghost predicate Valid()
      reads this
    {
      written == Ones(filename, LinesTokens(seen))
    }

    /** `setup`: the file name, fixed for the whole map task, is the base name of the split's path. */
    constructor (path: string)
      ensures Valid()
      ensures filename == Basename(path) && fileMap == map[] && written == [] && seen == []
    {
      filename := Basename(path);
      fileMap := map[];
      written := [];
      seen := [];
    }

    /** `map`: one record per non-empty piece of the lowercased line split on `\W+`. */
    method Map(line: string)
      requires Valid()
      modifies this
      ensures Valid()
      ensures seen == old(seen) + [line] && filename == old(filename)
      ensures written == old(written) + Ones(filename, JavaTokens(line))
      ensures fileMap == if JavaTokens(line) == [] then old(fileMap) else map[filename := 1]
    {
      var pieces := JavaSplit(LowerStr(line));
      WritePieces(pieces);
      JavaSplitNonEmpty(LowerStr(line));
      seen := seen + [line];
      LinesTokensAppend(old(seen), line);
      OnesAppend(filename, LinesTokens(old(seen)), JavaTokens(line));
    }

    /** The loop of `map`: `word.set(token)`, `fileMap.clear()`, `fileMap.put(filename, one)`, `context.write` per non-empty piece. */
    method WritePieces(pieces: seq<string>)
      modifies this
      ensures filename == old(filename) && seen == old(seen)
      ensures written == old(written) + Ones(filename, NonEmptyOf(pieces))
      ensures fileMap == if NonEmptyOf(pieces) == [] then old(fileMap) else map[filename := 1]
    {
      for i := 0 to |pieces|
        invariant filename == old(filename) && seen == old(seen)
        invariant written == old(written) + Ones(filename, NonEmptyOf(pieces[..i]))
        invariant fileMap == if NonEmptyOf(pieces[..i]) == [] then old(fileMap) else map[filename := 1]
      {
        var token := pieces[i];
        OnesStep(filename, pieces, i);
        if token == [] {
          continue;
        }
        fileMap := map[];
        fileMap := fileMap[filename := 1];
        written := written + [(token, fileMap)];
      }
      assert pieces[..|pieces|] == pieces;
    }
  }

  lemma OnesStep(filename: string, pieces: seq<string>, i: nat)
    requires i < |pieces|
    ensures var before := NonEmptyOf(pieces[..i]);
            NonEmptyOf(pieces[..i + 1]) == (if pieces[i] == [] then before else before + [pieces[i]]) &&
            Ones(filename, NonEmptyOf(pieces[..i + 1])) ==
              Ones(filename, before) + (if pieces[i] == [] then [] else [(pieces[i], map[filename := 1])])
  {
    var token, before := pieces[i], NonEmptyOf(pieces[..i]);
    assert pieces[..i + 1] == pieces[..i] + [token];
    NonEmptyOfAppend(pieces[..i], [token]);
    assert NonEmptyOf([token]) == if token == [] then [] else [token];
    if token == [] {
      assert before + [] == before;
      assert Ones(filename, before) + [] == Ones(filename, before);
    } else {
      OnesAppend(filename, before, [token]);
      assert Ones(filename, [token]) == [(token, map[filename := 1])];
    }
  }

  /**
   * What `map` writes for one line: a record for each non-empty token, in
   * order, keyed by the raw lowercased token (no stemming, no stop words)
   * with the single entry `filename → 1`.
   */
  lemma MapRecords(filename: string, line: string)
    ensures |Ones(filename, JavaTokens(line))| == |JavaTokens(line)|
    ensures forall i :: 0 <= i < |JavaTokens(line)| ==>
              var r := Ones(filename, JavaTokens(line))[i];
              r.0 == JavaTokens(line)[i] && r.0 != "" && r.1 == map[filename := 1]
    ensures forall i, j :: 0 <= i < |JavaTokens(line)| && 0 <= j < |JavaTokens(line)[i]| ==>
              IsWordChar(JavaTokens(line)[i][j]) && !IsUpper(JavaTokens(line)[i][j])
  {
    OnesShape(filename, JavaTokens(line));
    JavaTokensShape(line);
  }
}
