/** Which letters the labels of the configuration pack may show, and a word that takes three deltas. */
module PunycodeWords {
  import opened Wrappers
  import opened PunycodeDigits
  import opened PunycodeDeltas
  import opened Punycode

  // --- Letters ------------------------------------------------------------------------

  const ASCII := "-0123456789abcdefghijklmnopqrstuvwxyz"
  const LATIN_1 := "ßàáâãäåæçèéêëìíîïðñòóôõöøùúûüýþÿ"
  const LATIN_A_TO_E := "āăąćĉċčďđēĕėęě"
  const LATIN_G_TO_K := "ĝğġģĥħĩīĭįıĵķĸ"
  const LATIN_L_TO_S := "ĺļľłńņňŋōŏőœŕŗřśŝş"
  const LATIN_S_TO_Z := "šţťŧũūŭůűųŵŷźżž"

  /**
   The allowed letters, one by one: the lower-case letters of three blocks but
   for `ĳ`, `ŀ`, `ŉ` and `ſ`, which a URL parser would not keep, and `µ`.
   */
  lemma LettersExactly(c: char)
    ensures IdnLetterOk(c as int) <==>
            || c in ASCII || c in LATIN_1
            || c in LATIN_A_TO_E || c in LATIN_G_TO_K || c in LATIN_L_TO_S || c in LATIN_S_TO_Z
  {
    hide IdnLetterOk;
    AsciiLetters(c);
    Latin1Letters(c);
    LettersAToE(c);
    LettersGToK(c);
    LettersLToS(c);
    LettersSToZ(c);
    NoLetter(c);
  }

  lemma AsciiLetters(c: char)
    ensures c in ASCII <==> c < '\U{80}' && IdnLetterOk(c as int)
  {
  }

  lemma Latin1Letters(c: char)
    ensures c in LATIN_1 <==> '\U{80}' <= c < '\U{100}' && IdnLetterOk(c as int)
  {
  }

  lemma LettersAToE(c: char)
    ensures c in LATIN_A_TO_E <==> '\U{100}' <= c < '\U{11C}' && IdnLetterOk(c as int)
  {
  }

  lemma LettersGToK(c: char)
    ensures c in LATIN_G_TO_K <==> '\U{11C}' <= c < '\U{139}' && IdnLetterOk(c as int)
  {
  }

  lemma LettersLToS(c: char)
    ensures c in LATIN_L_TO_S <==> '\U{139}' <= c < '\U{160}' && IdnLetterOk(c as int)
  {
  }

  lemma LettersSToZ(c: char)
    ensures c in LATIN_S_TO_Z <==> '\U{160}' <= c < '\U{180}' && IdnLetterOk(c as int)
  {
  }

  lemma NoLetter(c: char)
    ensures c >= '\U{180}' ==> !IdnLetterOk(c as int)
  {
  }

  // --- A word -------------------------------------------------------------------------

  /** The text `4ca0bs`. */
  const TEXT: seq<int> := [0x34, 0x63, 0x61, 0x30, 0x62, 0x73]

  /** The word `äöü`. */
  const WORD: seq<int> := [0xE4, 0xF6, 0xFC]

  lemma FirstDelta()
    ensures ReadInt(TEXT, 0, 0, 1, 36, 72) == Some((3, 100))
    ensures Insert(State([], 0x80, 0), 100) == State([0xE4], 0xE4, 1) && Adapt(100, 1, true) == 0
  {
    assert ReadInt(TEXT, 2, 100, 1225, 108, 72) == Some((3, 100));
    assert ReadInt(TEXT, 1, 30, 35, 72, 72) == Some((3, 100));
    DivMod(100, 1);
    DivMod(0, 1);
  }

  lemma SecondDelta()
    ensures ReadInt(TEXT, 3, 1, 1, 36, 0) == Some((5, 37))
    ensures Insert(State([0xE4], 0xE4, 1), 36) == State([0xE4, 0xF6], 0xF6, 2) && Adapt(36, 2, false) == 14
  {
    assert ReadInt(TEXT, 4, 27, 10, 72, 0) == Some((5, 37));
    DivMod(37, 2);
    DivMod(18, 2);
    DivMod(972, 65);
    assert Scale(27, 0) == Quot(972, 65);
  }

  lemma ThirdDelta()
    ensures ReadInt(TEXT, 5, 2, 1, 36, 14) == Some((6, 20))
    ensures Insert(State([0xE4, 0xF6], 0xF6, 2), 18) == State(WORD, 0xFC, 3)
  {
    DivMod(20, 3);
  }

  /** One round of the decoder, from what it reads and where that leads. */
  lemma Round(pos: nat, st: State, bias: nat, p: nat, i: nat, st': State)
    requires pos < |TEXT| && st.i <= |st.output| && ReadInt(TEXT, pos, st.i, 1, BASE, bias) == Some((p, i))
    requires Insert(st, i - st.i) == st' && !Refused(st'.n)
    ensures p <= |TEXT| && st'.i <= |st'.output|
    ensures DecodeFrom(TEXT, pos, st, bias) == DecodeFrom(TEXT, p, st', Adapt(i - st.i, |st'.output|, st.i == 0))
  {
    hide Insert, ReadInt, Adapt;
  }

  lemma WordDecoded()
    ensures Decode(TEXT) == Some(WORD)
  {
    assert RFind(TEXT) == -1;
    hide ReadInt, Insert, Adapt, RFind, DecodeFrom;
    FirstDelta();
    SecondDelta();
    ThirdDelta();
    var first, second, third := State([], 0x80, 0), State([0xE4], 0xE4, 1), State([0xE4, 0xF6], 0xF6, 2);
    Round(0, first, 72, 3, 100, second);
    Round(3, second, 0, 5, 37, third);
    Round(5, third, 14, 6, 20, State(WORD, 0xFC, 3));
    AtTheEnd(State(WORD, 0xFC, 3), Adapt(18, 3, false));
  }

  lemma AtTheEnd(st: State, bias: nat)
    requires st.i <= |st.output|
    ensures DecodeFrom(TEXT, 6, st, bias) == Some(st.output)
  {
  }

  /** And so the word is written as this text. */
  lemma WordEncoded()
    ensures Encode(WORD) == TEXT && Decode(TEXT) == Some(WORD)
  {
    hide Encode, Decode;
    WordDecoded();
    EncodeDecode(TEXT);
  }
}
