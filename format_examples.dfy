/** The transform on the kinds of text the viewer shows: bulleted narrative lines,
    amounts in dollars, and sentences with one word that may be set in italics. */
module FormatExamples {
  import opened TextFormat

  /** One line opening with `o ` gets a bullet marker and is otherwise unchanged. */
  lemma BulletLine(a: string)
    requires '\n' !in a
    ensures BulletsFrom("o " + a, true) == "* " + a
  {
    assert ("o " + a)[2..] == a;
    BulletsFromNoNewline(a);
  }

  lemma TwoBulletLines(a: string, b: string)
    requires '\n' !in a && '\n' !in b
    ensures Bullets(("o " + a) + "\n" + ("o " + b)) == ("* " + a) + "\n" + ("* " + b)
  {
    BulletsFromAcrossNewline("o " + a, "o " + b, true);
    BulletLine(a);
    BulletLine(b);
  }

  /** Two lines opening with `o `, such as `"o Point one\no Point two"`, become two
      bullet markers separated by one break token. */
  lemma BulletedLines(a: string, b: string, addSpace: bool)
    requires '\n' !in a && '\n' !in b && '$' !in a && '$' !in b
    requires NoItalicWord(a) && NoItalicWord(b)
    ensures FormatText(("o " + a) + "\n" + ("o " + b), addSpace) == ("* " + a) + Break(addSpace) + ("* " + b)
  {
    var br := Break(addSpace);
    var x, y := "* " + a, "* " + b;
    TwoBulletLines(a, b);
    assert Newlines(x + "\n" + y, addSpace) == x + br + y by {
      NewlinesEachBreak(x, y, addSpace);
      ReplaceAbsent(x, '\n', br);
      ReplaceAbsent(y, '\n', br);
    }
    assert Italics(x + br + y) == x + br + y by {
      NoItalicWithoutL("* ");
      NoItalicWithoutL(br);
      NoItalicWordAppend("* ", a);
      NoItalicWordAppend("* ", b);
      NoItalicWordAppend(x, br);
      NoItalicWordAppend(x + br, y);
      ItalicsIdentity(x + br + y);
    }
    ReplaceAbsent(x + br + y, '$', "\\$");
  }

  /** A `$` in running text, as in `"Price: $100"`, is escaped and nothing else changes. */
  lemma DollarAmount(a: string, b: string, addSpace: bool)
    requires '\n' !in a && '\n' !in b && '$' !in a && '$' !in b
    requires NoItalicWord(a) && NoItalicWord(b)
    requires !BulletAt(a + "$" + b, 0)
    ensures FormatText(a + "$" + b, addSpace) == a + "\\$" + b
  {
    var s := a + "$" + b;
    assert Newlines(Bullets(s), addSpace) == s by {
      BulletsSingleLine(s);
      ReplaceAbsent(s, '\n', Break(addSpace));
    }
    assert Italics(s) == s by {
      NoItalicWithoutL("$");
      NoItalicWordAppend(a, "$");
      NoItalicWordAppend(a + "$", b);
      ItalicsIdentity(s);
    }
    assert EscapeDollars(s) == a + "\\$" + b by {
      ReplaceAppend(a + "$", b, '$', "\\$");
      ReplaceAppend(a, "$", '$', "\\$");
      ReplaceAbsent(a, '$', "\\$");
      ReplaceAbsent(b, '$', "\\$");
    }
  }

  /** A run of word characters holds no line break and no `$`. */
  lemma WordPlain(w: string)
    requires forall j :: 0 <= j < |w| ==> IsWordChar(w[j])
    ensures '\n' !in w && '$' !in w
  {
    assert forall j :: 0 <= j < |w| ==> w[j] != '\n' && w[j] != '$';
  }

  /** In a single-line sentence only the one word `w` can be wrapped, and it is wrapped
      exactly as `Wrap` says. */
  lemma SentenceWithWord(a: string, w: string, b: string, addSpace: bool)
    requires a == [] || !IsWordChar(a[|a| - 1])
    requires w != [] && forall j :: 0 <= j < |w| ==> IsWordChar(w[j])
    requires b == [] || !IsWordChar(b[0])
    requires '\n' !in a && '\n' !in b && '$' !in a && '$' !in b
    requires NoItalicWord(a) && NoItalicWord(b)
    requires !BulletAt(a + w + b, 0)
    ensures FormatText(a + w + b, addSpace) == a + Wrap(w) + b
  {
    var s := a + w + b;
    WordPlain(w);
    assert '\n' !in s;
    BulletsSingleLine(s);
    ReplaceAbsent(s, '\n', Break(addSpace));
    SentenceItalics(a, w, b);
  }

  lemma SentenceItalics(a: string, w: string, b: string)
    requires a == [] || !IsWordChar(a[|a| - 1])
    requires w != [] && forall j :: 0 <= j < |w| ==> IsWordChar(w[j])
    requires b == [] || !IsWordChar(b[0])
    requires '$' !in a && '$' !in b
    requires NoItalicWord(a) && NoItalicWord(b)
    ensures EscapeDollars(Italics(a + w + b)) == a + Wrap(w) + b
  {
    ItalicsRun(a, w, b);
    ItalicsIdentity(a);
    ItalicsIdentity(b);
    WordPlain(w);
    assert '$' !in Wrap(w);
    ReplaceAbsent(a + Wrap(w) + b, '$', "\\$");
  }

  /** `italicized` starts with `italic`, so `"This is italicized text"` comes back as it
      was. */
  lemma ItalicizedNotWrapped()
    ensures Wrap("italicized") == "italicized"
  {
    var w := "italicized";
    assert w[1] == 't' && w[2] == 'a' && w[3] == 'l';
    assert !ItalicAt(w, 1) && !ItalicAt(w, 2) && !ItalicAt(w, 3);
  }

  /** `unitalicized` has word characters on both sides of `italic`, so it is wrapped. */
  lemma UnitalicizedWrapped()
    ensures Wrap("unitalicized") == "<i>unitalicized</i>"
  {
    var w := "unitalicized";
    assert w[2] == 'i' && w[3] == 't' && w[4] == 'a' && w[5] == 'l' && w[6] == 'i' && w[7] == 'c';
    assert ItalicAt(w, 2);
  }

  /** A bare `italic` has nothing on either side, so it is not wrapped. */
  lemma BareItalicNotWrapped()
    ensures Wrap("italic") == "italic"
  {
  }

  /** The narrative `"o Point one\no Point two"` renders as two bullet lines separated
      by a paragraph break. */
  lemma PointOnePointTwo()
    ensures FormatText("o Point one\no Point two", true) == "* Point one<br><br>* Point two"
  {
    var a, b := "Point one", "Point two";
    var s, r := ("o " + a) + "\n" + ("o " + b), ("* " + a) + Break(true) + ("* " + b);
    assert FormatText(s, true) == r by {
      NoItalicWithoutL(a);
      NoItalicWithoutL(b);
      BulletedLines(a, b, true);
    }
    PointOnePointTwoSpelled();
  }

  /** `"Price: $100"` comes out as `"Price: \$100"`. */
  lemma PriceInDollars()
    ensures FormatText("Price: $100", false) == "Price: \\$100"
  {
    var a, b := "Price: ", "100";
    var s, r := a + "$" + b, a + "\\$" + b;
    assert FormatText(s, false) == r by {
      NoItalicWithoutL(a);
      NoItalicWithoutL(b);
      DollarAmount(a, b, false);
    }
    PriceInDollarsSpelled();
  }

  /** `"This is italicized text"` is returned unchanged, while
      `"This is unitalicized text"` gets its middle word wrapped. */
  lemma ItalicSentences()
    ensures FormatText("This is italicized text", false) == "This is italicized text"
    ensures FormatText("This is unitalicized text", false) == "This is <i>unitalicized</i> text"
  {
    var a, b := "This is ", " text";
    var s1, s2 := a + "italicized" + b, a + "unitalicized" + b;
    var r2 := a + "<i>unitalicized</i>" + b;
    assert FormatText(s1, false) == s1 by {
      NoItalicWithoutL(a);
      NoItalicWithoutL(b);
      SentenceWithWord(a, "italicized", b, false);
      ItalicizedNotWrapped();
    }
    assert FormatText(s2, false) == r2 by {
      NoItalicWithoutL(a);
      NoItalicWithoutL(b);
      SentenceWithWord(a, "unitalicized", b, false);
      UnitalicizedWrapped();
    }
    ItalicSentencesSpelled();
  }

  // The scenario texts above, spelled out from their parts.

  lemma PointOnePointTwoSpelled()
    ensures ("o " + "Point one") + "\n" + ("o " + "Point two") == "o Point one\no Point two"
    ensures ("* " + "Point one") + Break(true) + ("* " + "Point two") == "* Point one<br><br>* Point two"
  {
  }

  lemma PriceInDollarsSpelled()
    ensures "Price: " + "$" + "100" == "Price: $100"
    ensures "Price: " + "\\$" + "100" == "Price: \\$100"
  {
  }

  lemma ItalicSentencesSpelled()
    ensures "This is " + "italicized" + " text" == "This is italicized text"
    ensures "This is " + "unitalicized" + " text" == "This is unitalicized text"
    ensures "This is " + "<i>unitalicized</i>" + " text" == "This is <i>unitalicized</i> text"
  {
  }
}
