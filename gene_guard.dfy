/**
 * GeneGuard: scans source text for a fixed list of suspicious code
 * patterns ("genes") and reports the first one found with a snippet of
 * its surroundings. Only the content-level logic is modelled: a file is
 * given as its path and its content.
 */
module GeneGuard {
  import opened Basics
  import opened Text

  /** The patterns looked for, in the order they are tried. */
  const SuspiciousGenes: seq<string> := [
    "eval(atob(",
    "process.env[\"AWS_KEY\"]",
    "child_process.exec("
  ]

  /** Characters of context kept on each side of a finding. */
  const SnippetContext := 20

  datatype ScanResult = ScanResult(filePath: string, markerFound: string, snippet: string)

  /**
   * `containsGene`: tries every start index, skips those whose first or last
   * character cannot match, and compares the rest character by character.
   */
  method ContainsGene(text: string, pattern: string) returns (found: bool)
    requires |pattern| > 0
    ensures found <==> Occurs(text, pattern)
    ensures |pattern| > |text| ==> !found
  {
    var windowSize := |pattern|;
    var i := 0;
    while i <= |text| - windowSize
      invariant 0 <= i
      invariant i <= |text| - windowSize + 1 || i == 0
      invariant forall k :: 0 <= k < i ==> !MatchesAt(text, pattern, k)
    {
      if text[i] != pattern[0] || text[i + windowSize - 1] != pattern[windowSize - 1] {
        assert text[i..i + windowSize][0] == text[i];
        assert text[i..i + windowSize][windowSize - 1] == text[i + windowSize - 1];
        i := i + 1;
        continue;
      }

      var matched := true;
      var j := 0;
      while j < windowSize
        invariant 0 <= j <= windowSize
        invariant matched
        invariant forall k :: 0 <= k < j ==> text[i + k] == pattern[k]
      {
        if text[i + j] != pattern[j] {
          matched := false;
          assert text[i..i + windowSize][j] == text[i + j];
          break;
        }
        j := j + 1;
      }

      if matched {
        assert text[i..i + windowSize] == pattern;
        assert MatchesAt(text, pattern, i);
        return true;
      }
      i := i + 1;
    }
    return false;
  }

  /** `content.indexOf(gene)`: the first start index of `gene`, or -1. */
  function IndexOf(content: string, gene: string): (idx: int)
    ensures idx == -1 <==> !Occurs(content, gene)
    ensures idx >= 0 ==> MatchesAt(content, gene, idx)
    ensures forall k :: 0 <= k < idx ==> !MatchesAt(content, gene, k)
  {
    IndexFrom(content, gene, 0)
  }

  /** The first start index at or after `from` that holds `gene`, or -1. */
  function IndexFrom(content: string, gene: string, from: nat): (idx: int)
    ensures idx == -1 ==> forall k :: from <= k ==> !MatchesAt(content, gene, k)
    ensures idx >= 0 ==> from <= idx && MatchesAt(content, gene, idx)
    ensures idx >= 0 ==> forall k :: from <= k < idx ==> !MatchesAt(content, gene, k)
    ensures idx >= -1
    decreases |content| - from
  {
    if from + |gene| > |content| then -1
    else if content[from..from + |gene|] == gene then from
    else IndexFrom(content, gene, from + 1)
  }

  /** `.replace(/\n/g, ' ')`: every newline becomes a space. */
  function ReplaceNewlines(s: string): (r: string)
    ensures |r| == |s|
    ensures forall i :: 0 <= i < |s| ==> r[i] == (if s[i] == '\n' then ' ' else s[i])
  {
    if s == [] then [] else [if s[0] == '\n' then ' ' else s[0]] + ReplaceNewlines(s[1..])
  }

  /** A string without newlines is left as it is. */
  lemma NewlineFreeUnchanged(s: string)
    requires '\n' !in s
    ensures ReplaceNewlines(s) == s
  {
    forall i | 0 <= i < |s| ensures ReplaceNewlines(s)[i] == s[i] {
      assert s[i] in s;
    }
  }

  /** `extractSnippet`: up to 20 characters either side of the first occurrence, on one line. */
  function ExtractSnippet(content: string, gene: string): (snippet: string)
    ensures |snippet| <= |gene| + 2 * SnippetContext
    ensures forall i :: 0 <= i < |snippet| ==> snippet[i] != '\n'
  {
    var idx := IndexOf(content, gene);
    var start := Max(0, idx - SnippetContext);
    var end := Min(|content|, idx + |gene| + SnippetContext);
    ReplaceNewlines(content[start..end])
  }

  /**
   * The snippet is the window [max(0, idx-20), min(|content|, idx+|gene|+20)) of the content
   * around the first occurrence `idx`, newlines turned into spaces; a gene with no newline of
   * its own can be found in its snippet.
   */
  lemma SnippetAroundFirstOccurrence(content: string, gene: string)
    requires Occurs(content, gene)
    ensures var idx := IndexOf(content, gene);
      var start := Max(0, idx - SnippetContext);
      var end := Min(|content|, idx + |gene| + SnippetContext);
      var snippet := ExtractSnippet(content, gene);
      && 0 <= start <= idx && idx + |gene| <= end <= |content|
      && |snippet| == end - start
      && (forall i :: 0 <= i < |snippet| ==>
            snippet[i] == (if content[start + i] == '\n' then ' ' else content[start + i]))
      && ((forall c :: 0 <= c < |gene| ==> gene[c] != '\n') ==> MatchesAt(snippet, gene, idx - start))
  {
    var idx := IndexOf(content, gene);
    var start := Max(0, idx - SnippetContext);
    var end := Min(|content|, idx + |gene| + SnippetContext);
    var snippet := ExtractSnippet(content, gene);
    assert content[start..end] == content[start..][..end - start];
    if forall c :: 0 <= c < |gene| ==> gene[c] != '\n' {
      var off := idx - start;
      forall c | 0 <= c < |gene| ensures snippet[off + c] == gene[c] {
        assert content[idx..idx + |gene|][c] == gene[c];
        assert content[start..end][off + c] == content[idx + c];
      }
      assert snippet[off..off + |gene|] == gene;
    }
  }

  /** The finding for `content` when the genes are tried in the order of `genes`. */
  function Scan(filePath: string, content: string, genes: seq<string>): (finding: Option<ScanResult>)
  {
    if genes == [] then None
    else if Occurs(content, genes[0]) then Some(ScanResult(filePath, genes[0], ExtractSnippet(content, genes[0])))
    else Scan(filePath, content, genes[1..])
  }

  /**
   * The scan reports nothing exactly when no gene occurs, and otherwise the first gene
   * in list order that occurs, with its snippet and the file's path.
   */
  lemma {:induction false} ScanFindsFirstGene(filePath: string, content: string, genes: seq<string>)
    ensures Scan(filePath, content, genes).None? <==> forall g :: 0 <= g < |genes| ==> !Occurs(content, genes[g])
    ensures Scan(filePath, content, genes).Some? ==>
      exists g :: 0 <= g < |genes|
        && Occurs(content, genes[g])
        && (forall h :: 0 <= h < g ==> !Occurs(content, genes[h]))
        && Scan(filePath, content, genes).value == ScanResult(filePath, genes[g], ExtractSnippet(content, genes[g]))
    decreases |genes|
  {
    if genes != [] && !Occurs(content, genes[0]) {
      var rest := genes[1..];
      ScanFindsFirstGene(filePath, content, rest);
      forall g | 0 <= g < |rest| ensures rest[g] == genes[g + 1] { }
      if Scan(filePath, content, rest).Some? {
        var g :| 0 <= g < |rest|
          && Occurs(content, rest[g])
          && (forall h :: 0 <= h < g ==> !Occurs(content, rest[h]))
          && Scan(filePath, content, rest).value == ScanResult(filePath, rest[g], ExtractSnippet(content, rest[g]));
        forall h | 0 <= h < g + 1 ensures !Occurs(content, genes[h]) {
          if h > 0 { assert genes[h] == rest[h - 1]; }
        }
        assert Occurs(content, genes[g + 1]);
      } else {
        forall g | 0 <= g < |genes| ensures !Occurs(content, genes[g]) {
          if g > 0 { assert genes[g] == rest[g - 1]; }
        }
      }
    } else if genes != [] {
      assert Occurs(content, genes[0]);
    }
  }

  /** `scanFile` on a file's content: the genes are tried in list order and the first hit is reported. */
  method ScanFile(filePath: string, content: string) returns (r: Option<ScanResult>)
    ensures r == Scan(filePath, content, SuspiciousGenes)
  {
    var g := 0;
    while g < |SuspiciousGenes|
      invariant 0 <= g <= |SuspiciousGenes|
      invariant Scan(filePath, content, SuspiciousGenes) == Scan(filePath, content, SuspiciousGenes[g..])
    {
      var gene := SuspiciousGenes[g];
      var hit := ContainsGene(content, gene);
      assert SuspiciousGenes[g..][1..] == SuspiciousGenes[g + 1..];
      if hit {
        return Some(ScanResult(filePath, gene, ExtractSnippet(content, gene)));
      }
      g := g + 1;
    }
    return None;
  }

  /** The content the detection test writes: `eval(atob("malicious code"));`. */
  const TestPayload := "eval(atob(\"malicious code\"));"

  /** The test content is a single line, so newline replacement leaves it as it is. */
  lemma TestPayloadOneLine()
    ensures ReplaceNewlines(TestPayload) == TestPayload
  {
    assert '\n' !in TestPayload;
    NewlineFreeUnchanged(TestPayload);
  }

  /** The first gene starts the test content. */
  lemma TestPayloadIndex()
    ensures IndexOf(TestPayload, SuspiciousGenes[0]) == 0
  {
    var gene := SuspiciousGenes[0];
    assert TestPayload[0..|gene|] == gene;
    assert MatchesAt(TestPayload, gene, 0);
  }

  /** The snippet around the first gene of the test content is the whole content. */
  lemma TestPayloadSnippet()
    ensures ExtractSnippet(TestPayload, SuspiciousGenes[0]) == TestPayload
  {
    var gene := SuspiciousGenes[0];
    TestPayloadIndex();
    assert |gene| == 10 && |TestPayload| == 29;
    assert TestPayload[0..29] == TestPayload;
    TestPayloadOneLine();
  }

  /** A file holding the test content is reported with the first gene and the whole content as snippet. */
  lemma TestPayloadReported(filePath: string)
    ensures Scan(filePath, TestPayload, SuspiciousGenes) == Some(ScanResult(filePath, "eval(atob(", TestPayload))
  {
    TestPayloadIndex();
    TestPayloadSnippet();
    assert MatchesAt(TestPayload, SuspiciousGenes[0], 0);
  }
}
