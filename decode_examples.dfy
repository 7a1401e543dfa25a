/** The decoder on small inputs like those of its tests, and on inputs that
    show how the code behaves where a reader might expect otherwise. Each
    example is walked through one routine call at a time: the small lemmas
    below fix the result and the reader state of one call each, and name
    the slices of the input that the call reads. */
module DecodeExamples {
  import opened Common
  import opened Strconv
  import opened Values
  import opened HashingReader
  import opened DecodeSpec
  import opened Decoder

  /** One decoder reads integers in turn; a negative one is refused by an
      unsigned target with a syntax error, and a uint target reads 77. */
  lemma IntsInTurn()
    ensures IntF("i5ei-12e", RState(0, false, None)) == Step(Ok(5), RState(3, false, None))
    ensures IntF("i5ei-12e", RState(3, false, None)) == Step(Ok(-12), RState(8, false, None))
    ensures UintF("i5ei-12e", RState(3, false, None)) == Step(Err(InvalidSyntax), RState(8, false, None))
    ensures UintF("i77e", RState(0, false, None)) == Step(Ok(77), RState(4, false, None))
  {
    IntsFirst();
    IntsSecondDigits();
    FormatIntRoundTrip(-12);
    assert FormatInt(-12) == "-12";
    assert ParseUint("-12") == Err(InvalidSyntax);
    FormatUintRoundTrip(77);
    assert FormatUint(77) == "77";
  }

  lemma IntsFirst()
    ensures IntF("i5ei-12e", RState(0, false, None)) == Step(Ok(5), RState(3, false, None))
  {
    assert IndexFrom("i5ei-12e", 1, 'e') == Some(2);
    assert "i5ei-12e"[1..3] == "5e";
  }

  lemma IntsSecondDigits()
    ensures IntLiteralF("i5ei-12e", RState(3, false, None)) == Step(Ok("-12"), RState(8, false, None))
  {
    assert IndexFrom("i5ei-12e", 4, 'e') == Some(7);
    assert "i5ei-12e"[4..8] == "-12e";
    assert "-12e"[..3] == "-12";
  }

  /** Strings in turn; a negative length is refused. */
  lemma StringsInTurn()
    ensures StringF("3:foo2:ab", RState(0, false, None)) == Step(Ok("foo"), RState(5, false, None))
    ensures StringF("3:foo2:ab", RState(5, false, None)) == Step(Ok("ab"), RState(9, false, None))
    ensures StringF("-1:x", RState(0, false, None)).res == Err(NegativeLength)
  {
    StringsFirst();
    StringsSecond();
    NegativeLengthString();
  }

  lemma StringsFirst()
    ensures StringF("3:foo2:ab", RState(0, false, None)) == Step(Ok("foo"), RState(5, false, None))
  {
    assert IndexFrom("3:foo2:ab", 0, ':') == Some(1);
    assert "3:foo2:ab"[0..2] == "3:";
    assert "3:foo2:ab"[2..5] == "foo";
    assert ParseInt("3") == Ok(3);
  }

  lemma StringsSecond()
    ensures StringF("3:foo2:ab", RState(5, false, None)) == Step(Ok("ab"), RState(9, false, None))
  {
    assert IndexFrom("3:foo2:ab", 5, ':') == Some(6);
    assert "3:foo2:ab"[5..7] == "2:";
    assert "3:foo2:ab"[7..9] == "ab";
    assert ParseInt("2") == Ok(2);
  }

  lemma NegativeLengthString()
    ensures StringF("-1:x", RState(0, false, None)).res == Err(NegativeLength)
  {
    assert IndexFrom("-1:x", 0, ':') == Some(2);
    assert "-1:x"[0..3] == "-1:";
    FormatIntRoundTrip(-1);
    assert FormatInt(-1) == "-1";
  }

  /** Lists: empty, with one integer, and with an empty list and an
      integer, which leaves the byte after the list unread. */
  lemma SmallLists()
    ensures ListF("le", RState(0, false, None)) == Partial(None, [], RState(2, false, None))
    ensures ListF("li3ee", RState(0, false, None)) == Partial(None, [BInt(3)], RState(5, false, None))
    ensures ListF("llei3eex", RState(0, false, None)) == Partial(None, [BList([]), BInt(3)], RState(7, false, None))
  {
    ListOfOneInt();
    ListOfListAndInt();
  }

  lemma ListOfOneInt()
    ensures ListF("li3ee", RState(0, false, None)) == Partial(None, [BInt(3)], RState(5, false, None))
  {
    assert IndexFrom("li3ee", 2, 'e') == Some(3);
    assert "li3ee"[2..4] == "3e";
    assert [] + [BInt(3)] == [BInt(3)];
  }

  lemma ListOfListAndInt()
    ensures ListF("llei3eex", RState(0, false, None)) == Partial(None, [BList([]), BInt(3)], RState(7, false, None))
  {
    IntAfterEmptyList();
    assert ItemF("llei3eex", RState(1, false, None)) == Step(Ok(BList([])), RState(3, false, None));
    assert ListLoopF("llei3eex", RState(6, false, None), [BList([]), BInt(3)])
        == Partial(None, [BList([]), BInt(3)], RState(7, false, None));
    assert [BList([])] + [BInt(3)] == [BList([]), BInt(3)];
    assert [] + [BList([])] == [BList([])];
  }

  lemma IntAfterEmptyList()
    ensures ItemF("llei3eex", RState(3, false, None)) == Step(Ok(BInt(3)), RState(6, false, None))
  {
    assert IndexFrom("llei3eex", 4, 'e') == Some(5);
    assert "llei3eex"[4..6] == "3e";
  }

  /** A list of an integer, a string and a list. */
  lemma NestedList()
    ensures ListF("li3e1:ali4eee", RState(0, false, None))
            == Partial(None, [BInt(3), BStr("a"), BList([BInt(4)])], RState(13, false, None))
  {
    NestedFirst();
    NestedAfterFirst();
    assert [] + [BInt(3)] == [BInt(3)];
  }

  lemma NestedAfterFirst()
    ensures ListLoopF("li3e1:ali4eee", RState(4, false, None), [BInt(3)])
            == Partial(None, [BInt(3), BStr("a"), BList([BInt(4)])], RState(13, false, None))
  {
    NestedSecond();
    NestedAfterSecond();
    assert [BInt(3)] + [BStr("a")] == [BInt(3), BStr("a")];
  }

  lemma NestedAfterSecond()
    ensures ListLoopF("li3e1:ali4eee", RState(7, false, None), [BInt(3), BStr("a")])
            == Partial(None, [BInt(3), BStr("a"), BList([BInt(4)])], RState(13, false, None))
  {
    NestedThird();
    NestedEnd();
    assert [BInt(3), BStr("a")] + [BList([BInt(4)])] == [BInt(3), BStr("a"), BList([BInt(4)])];
  }

  lemma NestedEnd()
    ensures var all := [BInt(3), BStr("a"), BList([BInt(4)])];
            ListLoopF("li3e1:ali4eee", RState(12, false, None), all) == Partial(None, all, RState(13, false, None))
  {
  }

  lemma NestedFirst()
    ensures ItemF("li3e1:ali4eee", RState(1, false, None)) == Step(Ok(BInt(3)), RState(4, false, None))
  {
    assert IndexFrom("li3e1:ali4eee", 2, 'e') == Some(3);
    assert "li3e1:ali4eee"[2..4] == "3e";
  }

  lemma NestedSecond()
    ensures ItemF("li3e1:ali4eee", RState(4, false, None)) == Step(Ok(BStr("a")), RState(7, false, None))
  {
    assert IndexFrom("li3e1:ali4eee", 4, ':') == Some(5);
    assert "li3e1:ali4eee"[4..6] == "1:";
    assert "li3e1:ali4eee"[6..7] == "a";
    assert ParseInt("1") == Ok(1);
  }

  lemma NestedThird()
    ensures ItemF("li3e1:ali4eee", RState(7, false, None)) == Step(Ok(BList([BInt(4)])), RState(12, false, None))
  {
    NestedInnerInt();
    assert ListLoopF("li3e1:ali4eee", RState(11, false, None), [BInt(4)]) == Partial(None, [BInt(4)], RState(12, false, None));
    assert [] + [BInt(4)] == [BInt(4)];
  }

  lemma NestedInnerInt()
    ensures ItemF("li3e1:ali4eee", RState(8, false, None)) == Step(Ok(BInt(4)), RState(11, false, None))
  {
    assert IndexFrom("li3e1:ali4eee", 9, 'e') == Some(10);
    assert "li3e1:ali4eee"[9..11] == "4e";
  }

  /** Dictionaries: empty, and with one entry. */
  lemma SmallDicts()
    ensures DictF("de", RState(0, false, None)) == Partial(None, map[], RState(2, false, None))
    ensures DictF("d3:fooi4ee", RState(0, false, None)) == Partial(None, map["foo" := BInt(4)], RState(10, false, None))
  {
    DictKeyFoo();
    DictValueFour();
    assert DictLoopF("d3:fooi4ee", RState(9, false, None), map["foo" := BInt(4)])
        == Partial(None, map["foo" := BInt(4)], RState(10, false, None));
  }

  lemma DictKeyFoo()
    ensures StringF("d3:fooi4ee", RState(1, false, None)) == Step(Ok("foo"), RState(6, false, None))
  {
    assert IndexFrom("d3:fooi4ee", 1, ':') == Some(2);
    assert "d3:fooi4ee"[1..3] == "3:";
    assert "d3:fooi4ee"[3..6] == "foo";
    assert ParseInt("3") == Ok(3);
  }

  lemma DictValueFour()
    ensures ItemF("d3:fooi4ee", RState(6, false, None)) == Step(Ok(BInt(4)), RState(9, false, None))
  {
    assert IndexFrom("d3:fooi4ee", 7, 'e') == Some(8);
    assert "d3:fooi4ee"[7..9] == "4e";
  }

  /** Truncated input fails: an integer without its 'e', a string shorter
      than its length, a list or a dictionary without a body. */
  lemma TruncatedInputFails()
    ensures IntF("i3", RState(0, false, None)).res == Err(EOF)
    ensures StringF("4:foo", RState(0, false, None)).res == Err(EOF)
    ensures ListF("l", RState(0, false, None)).err == Some(EOF)
    ensures DictF("d", RState(0, false, None)).err == Some(EOF)
  {
    assert IndexFrom("4:foo", 0, ':') == Some(1);
    assert "4:foo"[0..2] == "4:";
    assert ParseInt("4") == Ok(4);
  }

  /** An element that fails to decode ends a list without an error, and the
      list stops before that element: "li1ex" yields [1] and leaves 'x'
      unread. */
  lemma ListStopsAtBadElement()
    ensures ListF("li1ex", RState(0, false, None)) == Partial(None, [BInt(1)], RState(4, false, None))
  {
  }

  /** UnmarshalTorrent into an int: the integer is decoded, and the result
      is MissingInfoKey, as no "info" value was hashed. */
  lemma TorrentWithoutInfo(v': GoValue, err: Option<Error>)
    requires var v := Ptr(TInt(Native), Some(Int(Native, 0)));
             Unmarshalled("i5e", RState(0, false, None), v, v', err)
    ensures v' == Ptr(TInt(Native), Some(Int(Native, 5))) && err.None?
    ensures var v := Ptr(TInt(Native), Some(Int(Native, 0)));
            TorrentResult(err, UnmarshalState("i5e", RState(0, false, None), v).hash) == Err(MissingInfoKey)
  {
  }
}
