/** What counts as a target triple in evidence: the reading of the pattern against the words it names. */
module TargetTriples {
  import opened ContractGate

  predicate IsWord(word: string) { word != "" && forall i :: 0 <= i < |word| ==> WordChar(word[i]) }

  predicate AllWords(words: seq<string>) { forall i :: 0 <= i < |words| ==> IsWord(words[i]) }

  function Dashed(words: seq<string>): string
  {
    if words == [] then "" else if |words| == 1 then words[0] else words[0] + "-" + Dashed(words[1..])
  }

  /** A target triple: three or four nonempty words of lower-case letters, digits and underscores,
      joined by dashes; a final newline is overlooked. */
  ghost predicate NamesTriple(target: string)
  {
    exists words: seq<string> :: 3 <= |words| <= 4 && AllWords(words)
      && (target == Dashed(words) || target == Dashed(words) + "\n")
  }

  /** Reading a word to its end, inside it or not yet. */
  lemma {:induction false} WordsAfterWord(word: string, rest: string, inWord: bool)
    requires (forall i :: 0 <= i < |word| ==> WordChar(word[i])) && (inWord || word != "")
    ensures Words(word + rest, inWord) == Words(rest, true)
    decreases |word|
  {
    if word == "" {
      assert word + rest == rest;
    } else {
      assert (word + rest)[0] == word[0] && (word + rest)[1..] == word[1..] + rest;
      WordsAfterWord(word[1..], rest, true);
    }
  }

  lemma WordsAfterDash(rest: string)
    ensures Words("-" + rest, true) == if Words(rest, false) > 0 then 1 + Words(rest, false) else 0
  {
    assert ("-" + rest)[0] == '-' && ("-" + rest)[1..] == rest;
  }

  lemma DashedStep(words: seq<string>)
    requires |words| > 1
    ensures Dashed(words) == words[0] + ("-" + Dashed(words[1..]))
  {
  }

  lemma {:induction false} DashedHasWords(words: seq<string>)
    requires words != [] && AllWords(words)
    ensures Words(Dashed(words), false) == |words|
  {
    if |words| == 1 {
      WordsAfterWord(words[0], "", false);
      assert words[0] + "" == words[0];
    } else {
      DashedHasWords(words[1..]);
      DashedStep(words);
      WordsAfterWord(words[0], "-" + Dashed(words[1..]), false);
      WordsAfterDash(Dashed(words[1..]));
    }
  }

  /** Any text that counts as words is that many of them, the first one continuing `sofar`. */
  lemma {:induction false} WordsAreDashed(sofar: string, text: string) returns (words: seq<string>)
    requires (forall i :: 0 <= i < |sofar| ==> WordChar(sofar[i])) && Words(text, sofar != "") > 0
    ensures |words| == Words(text, sofar != "") && AllWords(words) && Dashed(words) == sofar + text
    decreases |text|
  {
    if text == "" {
      words := [sofar];
      assert sofar + text == sofar;
    } else if WordChar(text[0]) {
      words := WordsAreDashed(sofar + [text[0]], text[1..]);
      assert sofar + [text[0]] + text[1..] == sofar + text;
    } else {
      var rest := WordsAreDashed("", text[1..]);
      words := [sofar] + rest;
      assert words[1..] == rest && "" + text[1..] == text[1..];
      DashedStep(words);
      assert "-" + text[1..] == text;
    }
  }

  lemma {:induction false} NoNewline(words: seq<string>)
    requires words != [] && AllWords(words)
    ensures Dashed(words) != "" && Dashed(words)[|Dashed(words)| - 1] != '\n'
  {
    if |words| > 1 { NoNewline(words[1..]); }
  }

  lemma TripleIff(target: string)
    ensures IsTriple(target) <==> NamesTriple(target)
  {
    if IsTriple(target) {
      var t := if target != "" && target[|target| - 1] == '\n' then target[..|target| - 1] else target;
      var words := WordsAreDashed("", t);
      assert "" + t == t;
      assert target == t || target == t + "\n";
    }
    if NamesTriple(target) {
      var words: seq<string> :| 3 <= |words| <= 4 && AllWords(words)
        && (target == Dashed(words) || target == Dashed(words) + "\n");
      DashedHasWords(words);
      NoNewline(words);
      if target == Dashed(words) + "\n" { assert target[..|target| - 1] == Dashed(words); }
    }
  }
}
