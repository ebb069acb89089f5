/**
 * Clients of the string operations: the library's own usage example, the
 * equality laws, append chains and reservation, and self-append.
 */
module Examples {
  import opened LibC
  import opened TrimSpec
  import opened GbString

  /** The bytes of an ASCII string literal. */
  function Ascii(s: string): (b: seq<byte>)
    requires forall i :: 0 <= i < |s| ==> s[i] as int < 128
    ensures |b| == |s| && forall i :: 0 <= i < |s| ==> b[i] as int == s[i] as int
  {
    seq(|s|, i requires 0 <= i < |s| => s[i] as int as byte)
  }

  /** The three parts of the usage example's trim input, and which of their end bytes are cut. */
  lemma TrimExampleParts(p: seq<byte>, m: seq<byte>, q: seq<byte>, cut: seq<byte>)
    requires p == Ascii("Ab.;!...A") && m == Ascii("Hello World") && q == Ascii("       ??")
    requires cut == Ascii("Ab.;!. ?")
    ensures AllCut(p, cut) && AllCut(q, cut) && !IsCut(m[0], cut) && !IsCut(m[|m| - 1], cut)
  {
    assert cut == [0x41, 0x62, 0x2e, 0x3b, 0x21, 0x2e, 0x20, 0x3f];
    assert p == [0x41, 0x62, 0x2e, 0x3b, 0x21, 0x2e, 0x2e, 0x2e, 0x41];
    assert q == [0x20, 0x20, 0x20, 0x20, 0x20, 0x20, 0x20, 0x3f, 0x3f];
    assert m[0] == 0x48 && m[10] == 0x64;
  }

  lemma AsciiConcat(a: string, b: string)
    requires forall i :: 0 <= i < |a| ==> a[i] as int < 128
    requires forall i :: 0 <= i < |b| ==> b[i] as int < 128
    ensures forall i :: 0 <= i < |a + b| ==> (a + b)[i] as int < 128
    ensures Ascii(a + b) == Ascii(a) + Ascii(b)
  {
  }

  lemma TrimExampleSplit()
    ensures Ascii("Ab.;!...A") + Ascii("Hello World") + Ascii("       ??") == Ascii("Ab.;!...AHello World       ??")
  {
    assert "Ab.;!...A" + "Hello World" + "       ??" == "Ab.;!...AHello World       ??";
    AsciiConcat("Ab.;!...A", "Hello World");
    AsciiConcat("Ab.;!...A" + "Hello World", "       ??");
  }

  /** The trim in the usage example: "Ab.;!...AHello World       ??" cut by "Ab.;!. ?" is "Hello World". */
  lemma TrimExample()
    ensures Trimmed(Ascii("Ab.;!...AHello World       ??"), Ascii("Ab.;!. ?")) == Ascii("Hello World")
  {
    TrimExampleSplit();
    TrimExampleParts(Ascii("Ab.;!...A"), Ascii("Hello World"), Ascii("       ??"), Ascii("Ab.;!. ?"));
    TrimmedCharacterization(Ascii("Ab.;!...A"), Ascii("Hello World"), Ascii("       ??"), Ascii("Ab.;!. ?"));
  }

  /*
   * The usage example at the head of the library, as four independent steps,
   * each starting from strings made afresh with the contents the previous
   * step leaves (capacities may differ from the C run's); ok is false
   * when some allocation was refused, and then nothing is promised.
   */

  /** "Hello" + ", " + "world!" is "Hello, world!", of length 13. */
  method GreetingTest() returns (ok: bool, greeting: seq<byte>, greetingLen: nat)
    ensures ok ==> greeting == Ascii("Hello, world!") && greetingLen == 13
  {
    ok, greeting, greetingLen := false, [], 0;
    var hello, comma, world := Ascii("Hello"), Ascii(", "), Ascii("world!");
    var str := GbStr.Make(Some(hello));
    if str == null {
      return;
    }
    var otherStr := GbStr.MakeLength(Some(comma), 2);
    if otherStr == null {
      return;
    }
    assert comma[..2] == comma;
    var next := str.AppendString(otherStr);
    if next == null {
      return;
    }
    str := next;
    next := str.AppendCString(world);
    if next == null {
      return;
    }
    str := next;
    greeting := str.data[..str.len];
    greetingLen := str.Length();
    GbStr.Free(str);
    GbStr.Free(otherStr);
    GreetingParts();
    ok := true;
  }

  lemma GreetingParts()
    ensures Ascii("Hello") + Ascii(", ") + Ascii("world!") == Ascii("Hello, world!")
  {
    assert "Hello" + ", " + "world!" == "Hello, world!";
    AsciiConcat("Hello", ", ");
    AsciiConcat("Hello" + ", ", "world!");
  }

  /** Setting "Potato soup" over "Hello, world!" keeps the block and gives "Potato soup". */
  method SetTest() returns (ok: bool, potato: seq<byte>, sameBlock: bool)
    ensures ok ==> potato == Ascii("Potato soup") && sameBlock
  {
    ok, potato, sameBlock := false, [], false;
    var str := GbStr.Make(Some(Ascii("Hello, world!")));
    if str == null {
      return;
    }
    var next := str.Set(Ascii("Potato soup"));
    if next == null {
      return;
    }
    sameBlock := next == str;
    potato := next.data[..next.len];
    GbStr.Free(next);
    ok := true;
  }

  /** After setting "Hello" and "Pizza" over the two earlier strings, they are not equal. */
  method EqualityTest() returns (ok: bool, equal: bool)
    ensures ok ==> !equal
  {
    ok, equal := false, true;
    var str := GbStr.Make(Some(Ascii("Potato soup")));
    if str == null {
      return;
    }
    var otherStr := GbStr.MakeLength(Some(Ascii(", ")), 2);
    if otherStr == null {
      return;
    }
    var next := str.Set(Ascii("Hello"));
    if next == null {
      return;
    }
    str := next;
    next := otherStr.Set(Ascii("Pizza"));
    if next == null {
      return;
    }
    otherStr := next;
    equal := GbStr.AreEqual(str, otherStr);
    assert str.Contents()[0] != otherStr.Contents()[0];
    ok := true;
  }

  /** Setting "Ab.;!...AHello World       ??" and trimming by "Ab.;!. ?" gives "Hello World". */
  method TrimTest() returns (ok: bool, trimmed: seq<byte>)
    ensures ok ==> trimmed == Ascii("Hello World")
  {
    ok, trimmed := false, [];
    var str := GbStr.Make(Some(Ascii("Hello")));
    if str == null {
      return;
    }
    var next := str.Set(Ascii("Ab.;!...AHello World       ??"));
    if next == null {
      return;
    }
    str := next;
    str := str.Trim(Ascii("Ab.;!. ?"));
    TrimExample();
    trimmed := str.data[..str.len];
    GbStr.Free(str);
    ok := true;
  }

  /** Equality is reflexive and symmetric. */
  method EqualityLaws(x: GbStr, y: GbStr) returns (xx: bool, xy: bool, yx: bool)
    requires x.Valid() && y.Valid()
    ensures xx && xy == yx
  {
    xx := GbStr.AreEqual(x, x);
    xy := GbStr.AreEqual(x, y);
    yx := GbStr.AreEqual(y, x);
  }

  /** A string and its duplicate compare equal. */
  method DuplicateIsEqual(s: GbStr) returns (copied: bool, eq: bool)
    requires s.Valid()
    ensures copied ==> eq
  {
    var d := s.Duplicate();
    copied := d != null;
    eq := false;
    if d != null {
      eq := GbStr.AreEqual(s, d);
      GbStr.Free(d);
    }
  }

  /**
   * Making a string and appending twice gives the concatenation, and since
   * every growth is to the exact length needed, no spare capacity at all.
   */
  method AppendChain(a: seq<byte>, b: seq<byte>, c: seq<byte>) returns (r: GbStr?)
    ensures r != null ==> r.Valid() && r.Contents() == a + b + c && r.cap == |a| + |b| + |c|
  {
    var s := GbStr.MakeLength(Some(a), |a|);
    if s == null {
      return null;
    }
    assert a[..|a|] == a;
    var t := s.AppendLength(b);
    if t == null {
      GbStr.Free(s);
      return null;
    }
    r := t.AppendLength(c);
    if r == null {
      GbStr.Free(t);
    }
  }

  /** After make_space_for(s, |b|) succeeds, appending b keeps the same block. */
  method ReserveThenAppend(s: GbStr, b: seq<byte>) returns (reserved: GbStr?, r: GbStr?)
    requires s.Valid()
    modifies s, s.data
    ensures reserved != null ==> r == reserved && r.Valid() && r.Contents() == old(s.Contents()) + b
  {
    r := null;
    reserved := s.MakeSpaceFor(|b|);
    if reserved == null {
      return;
    }
    r := reserved.AppendLength(b);
  }

  /**
   * Appending a one-byte string to itself with the source's gb_append_string:
   * the string is full, so it grows, and the copy then reads the freed block.
   */
  method SelfAppendAsWritten() returns (s: GbStr?, r: GbStr?, ghost readFreed: bool)
    ensures s != null && r != null ==> readFreed
  {
    r, readFreed := null, false;
    s := GbStr.Make(Some(Ascii("a")));
    if s == null {
      return;
    }
    r, readFreed := s.AppendStringAsWritten(s);
  }

  /** The same call with the payload read before growing doubles the string. */
  method SelfAppend() returns (s: GbStr?, r: GbStr?)
    ensures s != null && r != null ==> r.Valid() && r.Contents() == Ascii("aa")
  {
    r := null;
    s := GbStr.Make(Some(Ascii("a")));
    if s == null {
      return;
    }
    r := s.AppendString(s);
  }
}
