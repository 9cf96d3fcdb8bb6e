/** What a user gets for the keys typed, for all settings: which line copy_to_cooked queues, when a
    reader has one, and what the special characters do. */
module LineKeys {
  import opened LineEditor
  import opened Tty

  /** Some test before the queueing of characters is for c. */
  predicate Special(t: Settings, c: Char) {
    (t.canon && (c == t.kill || c == t.erase || c == t.stop || c == t.start))
    || (t.isig && (c == t.intr || c == t.quit))
  }

  /** A character that is queued as it comes and ends nothing. */
  predicate Plain(t: Settings, c: Char) {
    c != 10 && c != 13 && c != t.eof && !Special(t, c)
  }

  predicate PlainText(t: Settings, text: seq<Char>) {
    forall i :: 0 <= i < |text| ==> Plain(t, text[i])
  }

  lemma {:induction false} TypesText(t: Settings, s: State, text: seq<Char>, more: seq<Char>)
    requires PlainText(t, text) && |s.line| + |text| <= SIZE - 1
    ensures CookAll(t, s, text + more) == CookAll(t, s.(line := s.line + text), more)
    decreases |text|
  {
    if text == [] {
      assert text + more == more && s.line + text == s.line;
    } else {
      var c := text[0];
      assert Plain(t, c);
      assert Cook(t, s, c) == s.(line := s.line + [c]);
      assert (text + more)[0] == c && (text + more)[1..] == text[1..] + more;
      TypesText(t, s.(line := s.line + [c]), text[1..], more);
      assert s.line + [c] + text[1..] == s.line + text;
    }
  }

  lemma CookAllOne(t: Settings, s: State, c: Char)
    requires |s.line| < SIZE - 1
    ensures CookAll(t, s, [c]) == (Cook(t, s, c), [])
  {
    assert [c][1..] == [];
  }

  lemma EnterIsNewline(t: Settings, s: State)
    requires t.crnl && !Special(t, 10)
    ensures Cook(t, s, 13) == s.(line := s.line + [10], data := s.data + 1)
  {
    assert KindOf(t, 13) == Keep(10);
  }

  /** The Enter key under ICRNL: the text and a newline are queued, and there is one line more. */
  lemma {:induction false} EntersLine(t: Settings, s: State, text: seq<Char>)
    requires t.crnl && !Special(t, 10) && PlainText(t, text) && |s.line| + |text| + 1 <= SIZE - 1
    ensures CookAll(t, s, text + [13]) == (s.(line := s.line + text + [10], data := s.data + 1), [])
  {
    TypesText(t, s, text, [13]);
    var s1 := s.(line := s.line + text);
    EnterIsNewline(t, s1);
    CookAllOne(t, s1, 13);
  }

  /** Without ICRNL a carriage return is dropped under IGNCR, and otherwise is a character. */
  lemma CarriageReturn(t: Settings, s: State)
    requires !t.crnl
    ensures t.nocr ==> Cook(t, s, 13) == s
    ensures !t.nocr && !Special(t, 13) ==>
              Cook(t, s, 13) == s.(line := s.line + [13], data := s.data + if t.eof == 13 then 1 else 0)
  {
  }

  /** A newline ends the line, or under INLCR is queued as a carriage return and ends nothing. */
  lemma Newline(t: Settings, s: State)
    ensures !t.nlcr && !Special(t, 10) ==> Cook(t, s, 10) == s.(line := s.line + [10], data := s.data + 1)
    ensures t.nlcr && !Special(t, 13) && t.eof != 13 ==> Cook(t, s, 10) == s.(line := s.line + [13])
  {
  }

  /** The end-of-file character is queued and makes a line of what came before it. */
  lemma {:induction false} EndsFile(t: Settings, s: State, text: seq<Char>, c: Char)
    requires c == t.eof && c != 10 && c != 13 && !Special(t, c)
    requires PlainText(t, text) && |s.line| + |text| + 1 <= SIZE - 1
    ensures CookAll(t, s, text + [c]) == (s.(line := s.line + text + [c], data := s.data + 1), [])
  {
    TypesText(t, s, text, [c]);
    CookAllOne(t, s.(line := s.line + text), c);
  }

  /** A character that carriage return and newline are not mapped to and from. */
  predicate Unmapped(c: Char) { c != 10 && c != 13 }

  /** Stop and start act on output alone. */
  lemma FlowControl(t: Settings, s: State, c: Char)
    requires t.canon && Unmapped(c) && c != t.kill && c != t.erase
    ensures c == t.stop ==> Cook(t, s, c) == s.(stopped := true)
    ensures c == t.start && c != t.stop ==> Cook(t, s, c) == s.(stopped := false)
  {
  }

  /** Interrupt and quit send each their own signal and are not queued. */
  lemma SignalKeys(t: Settings, s: State, c: Char)
    requires t.isig && Unmapped(c)
    requires t.canon ==> c != t.kill && c != t.erase && c != t.stop && c != t.start
    ensures c == t.intr ==> Cook(t, s, c) == s.(signals := s.signals + [Interrupt])
    ensures c == t.quit && c != t.intr ==> Cook(t, s, c) == s.(signals := s.signals + [Quit])
  {
  }

  /** Outside their modes they are characters like any other. */
  lemma RawKeys(t: Settings, s: State, c: Char)
    requires !t.canon && !t.isig && Unmapped(c)
    ensures Cook(t, s, c) == s.(line := s.line + [c], data := s.data + if c == t.eof then 1 else 0)
  {
  }

  /** The erase character takes back one character after the last line end, and nothing else. */
  lemma ErasesOne(t: Settings, s: State, c: Char)
    requires t.canon && c == t.erase && c != t.kill && Unmapped(c)
    ensures Cook(t, s, c) ==
            if s.line == [] || s.line[|s.line| - 1] == 10 || s.line[|s.line| - 1] == t.eof then s
            else s.(line := s.line[..|s.line| - 1])
  {
  }

  function Times(c: Char, n: nat): seq<Char> { seq(n, _ => c) }

  /** What was typed and then erased, as many characters as that, leaves no trace. */
  lemma {:induction false} ErasesTyped(t: Settings, s: State, text: seq<Char>, c: Char)
    requires t.canon && c == t.erase && c != t.kill && Unmapped(c)
    requires PlainText(t, text) && |s.line| + |text| < SIZE - 1
    ensures CookAll(t, s, text + Times(c, |text|)) == (s, [])
  {
    var all := s.(line := s.line + text);
    TypesText(t, s, text, Times(c, |text|));
    assert s.line + text[..|text|] == s.line + text;
    ErasesBack(t, s, text, c, |text|);
  }

  lemma {:induction false} ErasesBack(t: Settings, s: State, text: seq<Char>, c: Char, n: nat)
    requires t.canon && c == t.erase && c != t.kill && Unmapped(c) && n <= |text|
    requires PlainText(t, text) && |s.line| + |text| < SIZE - 1
    ensures CookAll(t, s.(line := s.line + text[..n]), Times(c, n)) == (s, [])
    decreases n
  {
    if n == 0 {
      assert s.line + text[..0] == s.line;
    } else {
      var now := s.(line := s.line + text[..n]);
      assert now.line[|now.line| - 1] == text[n - 1];
      assert Plain(t, text[n - 1]);
      ErasesOne(t, now, c);
      assert now.line[..|now.line| - 1] == s.line + text[..n - 1];
      assert Times(c, n)[1..] == Times(c, n - 1);
      ErasesBack(t, s, text, c, n - 1);
    }
  }
}
