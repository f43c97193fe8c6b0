/** The hide-letters transform of src/utils/textUtils.ts. */
module TextUtils {
  import opened JsString

  /** The character that stands in for a hidden letter. */
  const Bullet: char := '\U{2022}'

  /** The regular-expression class `\w` (no `u` flag): ASCII letters, digits and `_`. */
  predicate IsWordChar(c: char) {
    IsAsciiAlnum(c) || c == '_'
  }

  /** End of the run of word characters that starts at `i`. */
  function WordRunEnd(s: string, i: nat): (e: nat)
    requires i <= |s|
    ensures i <= e <= |s|
    ensures forall k :: i <= k < e ==> IsWordChar(s[k])
    ensures e < |s| ==> !IsWordChar(s[e])
    decreases |s| - i
  {
    if i == |s| || !IsWordChar(s[i]) then i else WordRunEnd(s, i + 1)
  }

  /** `convertLettersToUnderscores`: `text.replace(/\b\w+\b/g, …)`. The scan is
      leftmost and `\w+` greedy, so every match is a whole maximal run of word
      characters (its first character always follows a boundary); the callback
      keeps the first character and writes a bullet for each of the others. */
  function ConvertLettersToUnderscores(text: string): (r: string)
    ensures |r| == |text|
    decreases |text|
  {
    if text == [] then []
    else if IsWordChar(text[0]) then
      var e := WordRunEnd(text, 0);
      [text[0]] + Repeat(Bullet, e - 1) + ConvertLettersToUnderscores(text[e..])
    else [text[0]] + ConvertLettersToUnderscores(text[1..])
  }

  /** What becomes of the character at `k`: a word character that follows another
      word character is hidden, every other character is kept in place. */
  function HiddenAt(s: string, k: nat): char
    requires k < |s|
  {
    if 0 < k && IsWordChar(s[k - 1]) && IsWordChar(s[k]) then Bullet else s[k]
  }

  /** The transform agrees with `HiddenAt` at every position of `s`. */
  predicate ConvertsPointwise(s: string) {
    forall k :: 0 <= k < |s| ==> ConvertLettersToUnderscores(s)[k] == HiddenAt(s, k)
  }

  /** Within the first run of word characters the transform keeps the first
      character and hides the others. */
  lemma ConvertWordRunHead(s: string, e: nat, k: nat)
    requires s != [] && IsWordChar(s[0]) && e == WordRunEnd(s, 0)
    requires k < e
    ensures ConvertLettersToUnderscores(s)[k] == HiddenAt(s, k)
  {
    var head := [s[0]] + Repeat(Bullet, e - 1);
    assert ConvertLettersToUnderscores(s) == head + ConvertLettersToUnderscores(s[e..]);
    assert ConvertLettersToUnderscores(s)[k] == head[k];
    if k > 0 {
      assert head[k] == Bullet;
      assert IsWordChar(s[k - 1]) && IsWordChar(s[k]);
    }
  }

  /** Past the first run of word characters the transform is that of the rest. */
  lemma ConvertWordRunTail(s: string, e: nat, k: nat)
    requires s != [] && IsWordChar(s[0]) && e == WordRunEnd(s, 0)
    requires ConvertsPointwise(s[e..])
    requires e <= k < |s|
    ensures ConvertLettersToUnderscores(s)[k] == HiddenAt(s, k)
  {
    var rest := s[e..];
    var head := [s[0]] + Repeat(Bullet, e - 1);
    assert ConvertLettersToUnderscores(s) == head + ConvertLettersToUnderscores(rest);
    assert ConvertLettersToUnderscores(s)[k] == ConvertLettersToUnderscores(rest)[k - e];
    assert ConvertLettersToUnderscores(rest)[k - e] == HiddenAt(rest, k - e);
    if k == e {
      assert !IsWordChar(s[e]) && rest[0] == s[e];
    } else {
      assert rest[k - e - 1] == s[k - 1] && rest[k - e] == s[k];
    }
  }

  lemma ConvertWordRunPointwise(s: string, e: nat)
    requires s != [] && IsWordChar(s[0]) && e == WordRunEnd(s, 0)
    requires ConvertsPointwise(s[e..])
    ensures ConvertsPointwise(s)
  {
    forall k | 0 <= k < |s|
      ensures ConvertLettersToUnderscores(s)[k] == HiddenAt(s, k)
    {
      if k < e {
        ConvertWordRunHead(s, e, k);
      } else {
        ConvertWordRunTail(s, e, k);
      }
    }
  }

  lemma ConvertOtherPointwise(s: string)
    requires s != [] && !IsWordChar(s[0])
    requires ConvertsPointwise(s[1..])
    ensures ConvertsPointwise(s)
  {
    var r := ConvertLettersToUnderscores(s);
    forall k | 1 <= k < |s|
      ensures r[k] == HiddenAt(s, k)
    {
      assert r[k] == ConvertLettersToUnderscores(s[1..])[k - 1] == HiddenAt(s[1..], k - 1);
      assert k > 1 ==> s[1..][k - 2] == s[k - 1];
    }
  }

  /** The transform is the character-by-character map `HiddenAt`: same length,
      every non-word character unchanged in place, the first character of every
      run of word characters kept and the others hidden (a run of one is left
      alone; digits and `_` are word characters; brackets give no exemption). */
  lemma {:induction false} ConvertPointwise(s: string)
    ensures forall k :: 0 <= k < |s| ==> ConvertLettersToUnderscores(s)[k] == HiddenAt(s, k)
    decreases |s|
  {
    if s != [] {
      if IsWordChar(s[0]) {
        var e := WordRunEnd(s, 0);
        ConvertPointwise(s[e..]);
        ConvertWordRunPointwise(s, e);
      } else {
        ConvertPointwise(s[1..]);
        ConvertOtherPointwise(s);
      }
    }
  }

  /** After the transform no two word characters stand side by side. */
  lemma ConvertLeavesNoWordPair(s: string)
    ensures var r := ConvertLettersToUnderscores(s);
      forall k :: 0 < k < |r| ==> !(IsWordChar(r[k - 1]) && IsWordChar(r[k]))
  {
    var r := ConvertLettersToUnderscores(s);
    ConvertPointwise(s);
    forall k | 0 < k < |r|
      ensures !(IsWordChar(r[k - 1]) && IsWordChar(r[k]))
    {
      assert r[k] == HiddenAt(s, k) && r[k - 1] == HiddenAt(s, k - 1);
    }
  }

  /** Hiding the letters of a text whose letters are already hidden changes nothing. */
  lemma ConvertIdempotent(s: string)
    ensures ConvertLettersToUnderscores(ConvertLettersToUnderscores(s)) == ConvertLettersToUnderscores(s)
  {
    var r := ConvertLettersToUnderscores(s);
    ConvertLeavesNoWordPair(s);
    ConvertPointwise(r);
    forall k | 0 <= k < |r|
      ensures ConvertLettersToUnderscores(r)[k] == r[k]
    {
      assert ConvertLettersToUnderscores(r)[k] == HiddenAt(r, k);
      if k > 0 {
        assert !(IsWordChar(r[k - 1]) && IsWordChar(r[k]));
      }
    }
  }

  /** Brackets give no exemption: `[Music]` becomes `[M••••]`. */
  lemma BracketedWordExample(s: string)
    requires s == "[Music]"
    ensures ConvertLettersToUnderscores(s) == "[M\U{2022}\U{2022}\U{2022}\U{2022}]"
  {
    ConvertPointwise(s);
    var r := ConvertLettersToUnderscores(s);
    assert r[0] == HiddenAt(s, 0) == '[';
    assert r[1] == HiddenAt(s, 1) == 'M';
    assert r[2] == HiddenAt(s, 2) == Bullet;
    assert r[3] == HiddenAt(s, 3) == Bullet;
    assert r[4] == HiddenAt(s, 4) == Bullet;
    assert r[5] == HiddenAt(s, 5) == Bullet;
    assert r[6] == HiddenAt(s, 6) == ']';
  }

  /** Text after a non-word character is transformed on its own. */
  lemma ConvertAppendAtBreak(a: string, b: string)
    requires a != [] && !IsWordChar(a[|a| - 1])
    ensures ConvertLettersToUnderscores(a + b) == ConvertLettersToUnderscores(a) + ConvertLettersToUnderscores(b)
  {
    var s := a + b;
    ConvertPointwise(s);
    ConvertPointwise(a);
    ConvertPointwise(b);
    var r := ConvertLettersToUnderscores(a) + ConvertLettersToUnderscores(b);
    forall k | 0 <= k < |s|
      ensures ConvertLettersToUnderscores(s)[k] == r[k]
    {
      if k < |a| {
        assert HiddenAt(s, k) == HiddenAt(a, k);
      } else {
        assert HiddenAt(s, k) == HiddenAt(b, k - |a|);
      }
    }
  }

  /** The short words of the documentation's example, each with the character after it. */
  lemma DocExampleShortWords()
    ensures ConvertLettersToUnderscores("He ") == "H\U{2022} "
    ensures ConvertLettersToUnderscores("is ") == "i\U{2022} "
  {
  }

  lemma DocExampleSingleLetter()
    ensures ConvertLettersToUnderscores("a ") == "a "
  {
  }

  lemma DocExampleSoccer()
    ensures ConvertLettersToUnderscores("soccer ") == "s\U{2022}\U{2022}\U{2022}\U{2022}\U{2022} "
  {
  }

  lemma DocExamplePlayer()
    ensures ConvertLettersToUnderscores("player.") == "p\U{2022}\U{2022}\U{2022}\U{2022}\U{2022}."
  {
  }

  /** The example of the function's documentation, "He is a soccer player." becoming
      "H• i• a s••••• p•••••.", word by word. */
  lemma DocExample(s: string)
    requires s == "He " + ("is " + ("a " + ("soccer " + "player.")))
    ensures ConvertLettersToUnderscores(s) ==
      "H\U{2022} " + ("i\U{2022} " + ("a " + ("s\U{2022}\U{2022}\U{2022}\U{2022}\U{2022} " + "p\U{2022}\U{2022}\U{2022}\U{2022}\U{2022}.")))
  {
    ConvertAppendAtBreak("soccer ", "player.");
    ConvertAppendAtBreak("a ", "soccer " + "player.");
    ConvertAppendAtBreak("is ", "a " + ("soccer " + "player."));
    ConvertAppendAtBreak("He ", "is " + ("a " + ("soccer " + "player.")));
    DocExampleShortWords();
    DocExampleSingleLetter();
    DocExampleSoccer();
    DocExamplePlayer();
  }
}
