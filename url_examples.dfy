/** The extractor on concrete messages: the cases of the bot's pattern
    tests, and the behaviours of the pattern that are easy to overlook
    (a glued URL is swallowed, a match may start inside a word, any text
    after "/app" counts, the fragment is dropped). */
module UrlExamples {
  import opened UrlExtractor

  const Command: string := "!add"

  const Oblivion: string :=
    HttpsLiteral + ("/22330/The_Elder_Scrolls_IV_" + "Oblivion_Game_of_the_Year_Edition/")
  const Fallout: string :=
    HttpsLiteral + ("/22370/Fallout_3_" + "Game_of_the_Year_Edition/")

  // ---------------------------------------------------------------------
  // Building blocks, stated for any text

  lemma Assoc(a: string, b: string, c: string)
    ensures a + b + c == a + (b + c)
  {
  }

  lemma NoSpaceAppend(a: string, b: string)
    requires NoSpace(a) && NoSpace(b)
    ensures NoSpace(a + b)
  {
    assert forall k :: |a| <= k < |a + b| ==> (a + b)[k] == b[k - |a|];
  }

  /** Printable ASCII text other than the space has no whitespace. */
  lemma Printable(s: string)
    requires forall k :: 0 <= k < |s| ==> '!' <= s[k] <= '~'
    ensures NoSpace(s)
  {
  }

  /** A storefront URL: one of the two spellings of the prefix, then a
      non-empty whitespace-free tail; the pattern matches it whole. */
  lemma StoreUrl(lit: string, tail: string)
    requires lit == HttpsLiteral || lit == HttpLiteral
    requires tail != [] && NoSpace(tail)
    ensures NoSpace(lit + tail) && Match(Literals, lit + tail)
    ensures FindAll(Literals, lit + tail) == [lit + tail]
  {
    var u := lit + tail;
    LiteralText(lit);
    NoSpaceAppend(lit, tail);
    assert u[..|lit|] == lit;
    if lit == HttpLiteral {
      assert u[4] == ':';
      assert !(HttpsLiteral <= u) by {
        assert HttpsLiteral[4] == 's';
      }
    }
    assert u[|lit|] == tail[0];
    FindAllWord(Literals, u);
  }

  /** Whitespace-free text glued to the end of a match becomes part of it. */
  lemma Glued(u: string, v: string)
    requires NoSpace(u) && NoSpace(v) && Match(Literals, u)
    ensures NoSpace(u + v) && Match(Literals, u + v)
    ensures FindAll(Literals, u + v) == [u + v]
  {
    LiteralsValid();
    var n := LiteralLen(Literals, u);
    assert u[..n] <= u + v;
    LiteralCarries(Literals, u, u + v);
    assert (u + v)[n] == u[n];
    NoSpaceAppend(u, v);
    FindAllWord(Literals, u + v);
  }

  /** "!add", a space and the rest: only the rest can hold matches. */
  lemma AfterCommand(rest: string)
    ensures FindAll(Literals, Command + " " + rest) == FindAll(Literals, rest)
  {
    LiteralsValid();
    FindAllSplit(Literals, Command, ' ', rest);
    FindAllShort(Literals, Command);
  }

  /** "!add", then a, a space and b: the matches of a, then those of b. */
  lemma AfterCommandTwo(a: string, b: string)
    ensures FindAll(Literals, Command + " " + a + " " + b) == FindAll(Literals, a) + FindAll(Literals, b)
  {
    LiteralsValid();
    Assoc(Command + " ", a + " ", b);
    Assoc(Command, " ", a + " ");
    Assoc(Command + " " + a, " ", b);
    Assoc(Command + " ", a, " ");
    AfterCommand(a + " " + b);
    FindAllSplit(Literals, a, ' ', b);
  }

  lemma NoColonAppend(a: string, b: string)
    requires ':' !in a && ':' !in b
    ensures ':' !in a + b
  {
  }

  lemma OblivionUrl()
    ensures NoSpace(Oblivion) && Match(Literals, Oblivion)
    ensures FindAll(Literals, Oblivion) == [Oblivion]
  {
    Printable("/22330/The_Elder_Scrolls_IV_");
    Printable("Oblivion_Game_of_the_Year_Edition/");
    NoSpaceAppend("/22330/The_Elder_Scrolls_IV_", "Oblivion_Game_of_the_Year_Edition/");
    StoreUrl(HttpsLiteral, "/22330/The_Elder_Scrolls_IV_" + "Oblivion_Game_of_the_Year_Edition/");
  }

  lemma FalloutUrl()
    ensures NoSpace(Fallout) && Match(Literals, Fallout)
    ensures FindAll(Literals, Fallout) == [Fallout]
  {
    Printable("/22370/Fallout_3_");
    Printable("Game_of_the_Year_Edition/");
    NoSpaceAppend("/22370/Fallout_3_", "Game_of_the_Year_Edition/");
    StoreUrl(HttpsLiteral, "/22370/Fallout_3_" + "Game_of_the_Year_Edition/");
  }

  // ---------------------------------------------------------------------
  // The pattern tests

  /** A command with no URL in it has no match. */
  lemma NoMatches()
    ensures FindAll(Literals, "!add this is some " + "bogus command input") == []
  {
    LiteralsValid();
    NoColonAppend("!add this is some ", "bogus command input");
    FindAllNoColon(Literals, "!add this is some " + "bogus command input");
  }

  /** The bare store root is not a product page: the "app" part is missing. */
  lemma RootPathNotMatched()
    ensures FindAll(Literals, Command + " " + "https://store.steampowered.com/") == []
  {
    LiteralsValid();
    AfterCommand("https://store.steampowered.com/");
    FindAllShort(Literals, "https://store.steampowered.com/");
  }

  lemma SingleMatch()
    ensures FindAll(Literals, Command + " " + Oblivion) == [Oblivion]
  {
    AfterCommand(Oblivion);
    OblivionUrl();
  }

  /** Two URLs separated by a space are two matches, in message order. */
  lemma TwoMatches()
    ensures FindAll(Literals, Command + " " + Oblivion + " " + Fallout) == [Oblivion, Fallout]
  {
    AfterCommandTwo(Oblivion, Fallout);
    OblivionUrl();
    FalloutUrl();
  }

  /** A product page URL that stops at the numeric id is matched. */
  lemma AppIdOnly()
    ensures FindAll(Literals, Command + " " + (HttpsLiteral + "/22370")) == [HttpsLiteral + "/22370"]
  {
    Printable("/22370");
    AfterCommand(HttpsLiteral + "/22370");
    StoreUrl(HttpsLiteral, "/22370");
  }

  /** Encoded spaces are not whitespace: the whole dirty URL is one match. */
  lemma DirtyUrl()
    ensures FindAll(Literals, Command + " " + (Fallout + "%20has%20other%20stuff"))
         == [Fallout + "%20has%20other%20stuff"]
  {
    FalloutUrl();
    Glued(Fallout, "%20has%20other%20stuff");
    AfterCommand(Fallout + "%20has%20other%20stuff");
  }

  /** The match stops at the first whitespace: the words after it are not part of it. */
  lemma TrailingTextExcluded()
    ensures FindAll(Literals, Command + " " + Fallout + " "
        + (" oops there are some extra spaces" + " and a lot of character afterwards")) == [Fallout]
  {
    var words := " oops there are some extra spaces" + " and a lot of character afterwards";
    AfterCommandTwo(Fallout, words);
    FalloutUrl();
    NoColonAppend(" oops there are some extra spaces", " and a lot of character afterwards");
    FindAllNoColon(Literals, words) by {
      LiteralsValid();
    }
  }

  // ---------------------------------------------------------------------
  // Behaviours of the pattern

  /** A URL glued to the end of another, with no whitespace between them,
      is swallowed by the first: one match, not two. */
  lemma GluedUrlSwallowed()
    ensures FindAll(Literals, Fallout + Oblivion) == [Fallout + Oblivion]
  {
    FalloutUrl();
    OblivionUrl();
    Glued(Fallout, Oblivion);
  }

  /** Any text right after "/app" counts: "/apple" is matched too. */
  lemma AppleMatched()
    ensures FindAll(Literals, HttpsLiteral + "le") == [HttpsLiteral + "le"]
  {
    StoreUrl(HttpsLiteral, "le");
  }

  /** The plain http spelling is matched too. */
  lemma HttpMatched()
    ensures FindAll(Literals, HttpLiteral + "/10") == [HttpLiteral + "/10"]
  {
    StoreUrl(HttpLiteral, "/10");
  }

  /** A match can start inside a word: the letters in front are passed over. */
  lemma MidWordMatch()
    ensures FindAll(Literals, "see" + Fallout) == [Fallout]
  {
    var s := "see" + Fallout;
    assert Literals[0][0] == 'h' && Literals[1][0] == 'h';
    forall q | 0 <= q < 3
      ensures !Match(Literals, s[q..])
    {
      assert s[q..][0] != 'h';
    }
    FindAllSuffix(Literals, s, 3);
    assert s[3..] == Fallout;
    FalloutUrl();
  }

  /** The text before a fragment has no '#': Defrag returns exactly that text. */
  lemma {:induction false} DefragFragment(u: string, fragment: string)
    requires '#' !in u && fragment != [] && fragment[0] == '#'
    ensures Defrag(u + fragment) == u
    decreases |u|
  {
    if u == [] {
      assert u + fragment == fragment;
    } else {
      assert (u + fragment)[0] == u[0];
      assert (u + fragment)[1..] == u[1..] + fragment;
      assert u[0] in u;
      assert '#' !in u[1..] by {
        assert forall x :: x in u[1..] ==> x in u;
      }
      DefragFragment(u[1..], fragment);
      assert u == [u[0]] + u[1..];
    }
  }

  /** The bot drops the fragment of a URL: what it queues is the page itself. */
  lemma FragmentDropped()
    ensures Canonical(FindAll(Literals, Command + " " + (HttpsLiteral + "/22370" + "#reviews")))
         == [HttpsLiteral + "/22370"]
  {
    var url := HttpsLiteral + "/22370";
    StoreUrl(HttpsLiteral, "/22370");
    Glued(url, "#reviews");
    AfterCommand(url + "#reviews");
    LiteralText(HttpsLiteral);
    assert '#' !in url;
    DefragFragment(url, "#reviews");
  }
}
