/**
 * Cleanup of text extracted from a PDF: repair of UTF-8 sequences that arrive
 * as one Latin-1 character per byte, the ligature guess, and the
 * control-character filter.
 */
module TextCleanup {
  import opened Wrappers
  import opened Utf8

  function Code(c: char): nat { c as int }

  /** The byte values of `k` characters from position 0, read as Latin-1. */
  predicate TailsFrom(s: seq<char>, lo: nat, hi: nat)
    requires hi <= |s|
  {
    forall k :: lo <= k < hi ==> IsTail(Code(s[k]))
  }

  function Bytes(s: seq<char>): (b: seq<nat>)
    ensures |b| == |s| && forall k :: 0 <= k < |s| ==> b[k] == Code(s[k])
  {
    if |s| == 0 then [] else [Code(s[0])] + Bytes(s[1..])
  }

  /** U+00F0 followed by three continuation-range characters that form valid UTF-8. */
  predicate Lead4(s: seq<char>)
  {
    |s| >= 4 && Code(s[0]) == 0xF0 && TailsFrom(s, 1, 4) && Decode(Bytes(s[..4])).Some?
  }

  /** U+00E2 followed by two continuation-range characters (always valid UTF-8). */
  predicate Lead3(s: seq<char>)
  {
    |s| >= 3 && Code(s[0]) == 0xE2 && TailsFrom(s, 1, 3) && Decode(Bytes(s[..3])).Some?
  }

  function Decoded(s: seq<char>, n: nat): char
    requires n <= |s| && Decode(Bytes(s[..n])).Some?
  {
    Decode(Bytes(s[..n])).value as char
  }

  /** The repair pass as a recursive definition over the unread suffix. */
  function Repair(s: seq<char>): (r: seq<char>)
    ensures |r| <= |s|
  {
    if |s| == 0 then []
    else if Lead4(s) then [Decoded(s, 4)] + Repair(s[4..])
    else if Lead3(s) then [Decoded(s, 3)] + Repair(s[3..])
    else [s[0]] + Repair(s[1..])
  }

  /** The four characters from `i` as bytes, when they fit. */
  function Window4(text: seq<char>, i: nat): seq<nat>
    requires i + 3 < |text|
  {
    [Code(text[i]), Code(text[i + 1]), Code(text[i + 2]), Code(text[i + 3])]
  }

  function Window3(text: seq<char>, i: nat): seq<nat>
    requires i + 2 < |text|
  {
    [Code(text[i]), Code(text[i + 1]), Code(text[i + 2])]
  }

  /** The loop's test for a 4-byte sequence is the definition's. */
  lemma Step4(text: seq<char>, i: nat)
    requires i < |text|
    ensures Lead4(text[i..]) <==>
      (Code(text[i]) == 0xF0 && i + 3 < |text| && IsTail(Code(text[i + 1])) && IsTail(Code(text[i + 2]))
       && IsTail(Code(text[i + 3])) && Decode(Window4(text, i)).Some?)
    ensures Lead4(text[i..]) ==>
      Repair(text[i..]) == [Decode(Window4(text, i)).value as char] + Repair(text[i + 4..])
  {
    var rest := text[i..];
    if i + 3 < |text| {
      assert Bytes(rest[..4]) == Window4(text, i);
      assert rest[4..] == text[i + 4..];
    }
  }

  lemma Step3(text: seq<char>, i: nat)
    requires i < |text| && !Lead4(text[i..])
    ensures Lead3(text[i..]) <==>
      (Code(text[i]) == 0xE2 && i + 2 < |text| && IsTail(Code(text[i + 1])) && IsTail(Code(text[i + 2]))
       && Decode(Window3(text, i)).Some?)
    ensures Lead3(text[i..]) ==>
      Repair(text[i..]) == [Decode(Window3(text, i)).value as char] + Repair(text[i + 3..])
  {
    var rest := text[i..];
    if i + 2 < |text| {
      assert Bytes(rest[..3]) == Window3(text, i);
      assert rest[3..] == text[i + 3..];
    }
  }

  lemma Step1(text: seq<char>, i: nat)
    requires i < |text| && !Lead4(text[i..]) && !Lead3(text[i..])
    ensures Repair(text[i..]) == [text[i]] + Repair(text[i + 1..])
  {
    assert text[i..][1..] == text[i + 1..];
  }

  /**
   * One turn of the loop: the 4-byte test, then the 3-byte test, then the
   * plain copy; returns the character to push and how many inputs it used.
   */
  method RepairStep(text: seq<char>, i: nat) returns (ch: char, used: nat)
    requires i < |text|
    ensures 1 <= used <= 4 && i + used <= |text|
    ensures Repair(text[i..]) == [ch] + Repair(text[i + used..])
  {
    Step4(text, i);
    if Code(text[i]) == 0xF0 && i + 3 < |text|
       && IsTail(Code(text[i + 1])) && IsTail(Code(text[i + 2])) && IsTail(Code(text[i + 3]))
    {
      var decoded := Decode(Window4(text, i));
      if decoded.Some? {
        return decoded.value as char, 4;
      }
    }
    Step3(text, i);
    if Code(text[i]) == 0xE2 && i + 2 < |text| && IsTail(Code(text[i + 1])) && IsTail(Code(text[i + 2])) {
      var decoded := Decode(Window3(text, i));
      if decoded.Some? {
        return decoded.value as char, 3;
      }
    }
    Step1(text, i);
    return text[i], 1;
  }

  lemma Snoc(done: seq<char>, ch: char, rest: seq<char>, whole: seq<char>)
    requires done + ([ch] + rest) == whole
    ensures (done + [ch]) + rest == whole
  {
  }

  /** The index-driven loop that rebuilds the text. */
  method RepairUtf8(text: seq<char>) returns (result: seq<char>)
    ensures result == Repair(text)
  {
    result := [];
    var i := 0;
    while i < |text|
      invariant 0 <= i <= |text|
      invariant result + Repair(text[i..]) == Repair(text)
    {
      var ch, used := RepairStep(text, i);
      var next := i + used;
      assert text[next..] == text[i + used..];
      Snoc(result, ch, Repair(text[next..]), Repair(text));
      result := result + [ch];
      i := next;
    }
    assert text[i..] == [];
  }

  // ---------------------------------------------------------------------------
  // The inverse view: a repaired character back to its Latin-1 byte characters
  // ---------------------------------------------------------------------------

  /** Characters the repair can produce: U+2000-U+2FFF (lead E2) and U+10000-U+3FFFF (lead F0). */
  predicate Repairable(c: char)
  {
    0x2000 <= Code(c) <= 0x2FFF || 0x1_0000 <= Code(c) <= 0x3_FFFF
  }

  function Latin1(b: seq<nat>): (s: seq<char>)
    requires forall k :: 0 <= k < |b| ==> IsByte(b[k])
    ensures |s| == |b| && forall k :: 0 <= k < |b| ==> Code(s[k]) == b[k]
  {
    if |b| == 0 then []
    else
      assert IsByte(b[0]);
      [b[0] as char] + Latin1(b[1..])
  }

  /** How such a character looks after a byte-wise mis-decoding. */
  function Expand(c: char): seq<char>
  {
    if Repairable(c) then Latin1(Encode(Code(c))) else [c]
  }

  function Corrupt(t: seq<char>): seq<char>
  {
    if |t| == 0 then [] else Expand(t[0]) + Corrupt(t[1..])
  }

  lemma {:induction false} BytesOfLatin1(b: seq<nat>)
    requires forall k :: 0 <= k < |b| ==> IsByte(b[k])
    ensures Bytes(Latin1(b)) == b
  {
  }

  /** The 3-byte case: lead U+00E2 and two continuation characters encode U+2000-U+2FFF. */
  lemma Repaired3(s: seq<char>)
    requires Lead3(s) && !Lead4(s)
    ensures Repairable(Decoded(s, 3)) && Expand(Decoded(s, 3)) == s[..3]
  {
    var b := Bytes(s[..3]);
    EncodeDecode(b);
    var e := Encode(Decode(b).value);
    assert Latin1(e) == s[..3] by {
      forall k | 0 <= k < 3 ensures Latin1(e)[k] == s[..3][k] {
        assert Code(Latin1(e)[k]) == Code(s[..3][k]);
      }
    }
  }

  lemma Repaired4(s: seq<char>)
    requires Lead4(s)
    ensures Repairable(Decoded(s, 4)) && Expand(Decoded(s, 4)) == s[..4]
  {
    var b := Bytes(s[..4]);
    EncodeDecode(b);
    var e := Encode(Decode(b).value);
    assert Latin1(e) == s[..4] by {
      forall k | 0 <= k < 4 ensures Latin1(e)[k] == s[..4][k] {
        assert Code(Latin1(e)[k]) == Code(s[..4][k]);
      }
    }
  }

  /**
   * Round trip one way: on text containing no character of the repairable
   * ranges, every repaired character expands back to the bytes it came from
   * and everything else is copied, so corrupting the repair gives the input.
   */
  lemma {:induction false} CorruptRepair(s: seq<char>)
    requires forall k :: 0 <= k < |s| ==> !Repairable(s[k])
    ensures Corrupt(Repair(s)) == s
    decreases |s|
  {
    if |s| > 0 {
      var r := Repair(s);
      if Lead4(s) {
        Repaired4(s);
        CorruptRepair(s[4..]);
        assert r[0] == Decoded(s, 4) && r[1..] == Repair(s[4..]);
        assert s == s[..4] + s[4..];
      } else if Lead3(s) {
        Repaired3(s);
        CorruptRepair(s[3..]);
        assert r[0] == Decoded(s, 3) && r[1..] == Repair(s[3..]);
        assert s == s[..3] + s[3..];
      } else {
        CorruptRepair(s[1..]);
        assert r[0] == s[0] && r[1..] == Repair(s[1..]);
        assert s == [s[0]] + s[1..];
      }
    }
  }

  /** Repair undoes the expansion of one character at the front. */
  lemma RepairExpand(c: char, rest: seq<char>)
    requires Code(c) != 0xE2 && Code(c) != 0xF0
    ensures Repair(Expand(c) + rest) == [c] + Repair(rest)
  {
    var s := Expand(c) + rest;
    if Repairable(c) {
      var e := Encode(Code(c));
      DecodeEncode(Code(c));
      var n := |e|;
      assert s[..n] == Latin1(e) && s[n..] == rest;
      BytesOfLatin1(e);
      assert Bytes(s[..n]) == e;
      if Code(c) <= 0x2FFF {
        assert n == 3 && Lead3(s) && !Lead4(s);
      } else {
        assert n == 4 && Lead4(s);
      }
      assert Decoded(s, n) == c;
    } else {
      assert s[0] == c && s[1..] == rest;
    }
  }

  /**
   * Round trip the other way: expanding every repairable character of a text
   * free of U+00E2 and U+00F0 and then repairing gives the text back.
   */
  lemma {:induction false} RepairCorrupt(t: seq<char>)
    requires forall k :: 0 <= k < |t| ==> Code(t[k]) != 0xE2 && Code(t[k]) != 0xF0
    ensures Repair(Corrupt(t)) == t
  {
    if |t| > 0 {
      RepairCorrupt(t[1..]);
      RepairExpand(t[0], Corrupt(t[1..]));
      assert t == [t[0]] + t[1..];
    }
  }

  /** Text without either lead character is left as it is. */
  lemma {:induction false} RepairWithoutLeads(s: seq<char>)
    requires forall k :: 0 <= k < |s| ==> Code(s[k]) != 0xE2 && Code(s[k]) != 0xF0
    ensures Repair(s) == s
  {
    if |s| > 0 {
      RepairWithoutLeads(s[1..]);
      assert s == [s[0]] + s[1..];
    }
  }

  // ---------------------------------------------------------------------------
  // Control characters
  // ---------------------------------------------------------------------------

  /** Code points from U+0020 up are kept, and below it only tab, LF and CR. */
  predicate Printable(c: char)
  {
    Code(c) >= 0x20 || c == '\t' || c == '\n' || c == '\r'
  }

  function RemoveControl(s: seq<char>): (r: seq<char>)
    ensures |r| <= |s|
    ensures forall k :: 0 <= k < |r| ==> Printable(r[k])
  {
    if |s| == 0 then []
    else (if Printable(s[0]) then [s[0]] else []) + RemoveControl(s[1..])
  }

  /** The filter distributes over concatenation, so it keeps the printable characters in order. */
  lemma {:induction false} RemoveControlAppend(a: seq<char>, b: seq<char>)
    ensures RemoveControl(a + b) == RemoveControl(a) + RemoveControl(b)
  {
    if |a| > 0 {
      RemoveControlAppend(a[1..], b);
      assert (a + b)[1..] == a[1..] + b;
    } else {
      assert a + b == b;
    }
  }

  /** Text with no control characters is unchanged. */
  lemma {:induction false} RemoveControlOfPrintable(s: seq<char>)
    requires forall k :: 0 <= k < |s| ==> Printable(s[k])
    ensures RemoveControl(s) == s
  {
    if |s| > 0 {
      RemoveControlOfPrintable(s[1..]);
      assert s == [s[0]] + s[1..];
    }
  }

  lemma RemoveControlIdempotent(s: seq<char>)
    ensures RemoveControl(RemoveControl(s)) == RemoveControl(s)
  {
    RemoveControlOfPrintable(RemoveControl(s));
  }

  /** Exactly the printable characters are counted in. */
  lemma {:induction false} RemoveControlCount(s: seq<char>)
    ensures multiset(RemoveControl(s)) == multiset(s) - multiset(Controls(s))
    ensures multiset(Controls(s)) <= multiset(s)
  {
    if |s| > 0 {
      var t := s[1..];
      RemoveControlCount(t);
      assert s == [s[0]] + t;
      var head := multiset{s[0]};
      assert multiset(s) == head + multiset(t);
      if Printable(s[0]) {
        assert RemoveControl(s) == [s[0]] + RemoveControl(t) && Controls(s) == Controls(t);
        AddAfterRemove(head, multiset(t), multiset(Controls(t)));
      } else {
        assert RemoveControl(s) == RemoveControl(t) && Controls(s) == [s[0]] + Controls(t);
        RemoveBoth(head, multiset(t), multiset(Controls(t)));
      }
    }
  }

  lemma AddAfterRemove<T>(x: multiset<T>, a: multiset<T>, b: multiset<T>)
    requires b <= a
    ensures x + (a - b) == (x + a) - b && b <= x + a
  {
  }

  lemma RemoveBoth<T>(x: multiset<T>, a: multiset<T>, b: multiset<T>)
    requires b <= a
    ensures a - b == (x + a) - (x + b) && x + b <= x + a
  {
  }

  function Controls(s: seq<char>): (r: seq<char>)
    ensures forall k :: 0 <= k < |r| ==> !Printable(r[k])
  {
    if |s| == 0 then []
    else (if Printable(s[0]) then [] else [s[0]]) + Controls(s[1..])
  }

  // ---------------------------------------------------------------------------
  // Ligature guess and the whole cleanup
  // ---------------------------------------------------------------------------

  function Lower(c: char): char
  {
    if 'A' <= c <= 'Z' then (Code(c) + 32) as char else c
  }

  function Lowercase(s: seq<char>): (r: seq<char>)
    ensures |r| == |s| && forall k :: 0 <= k < |s| ==> r[k] == Lower(s[k])
  {
    if |s| == 0 then [] else [Lower(s[0])] + Lowercase(s[1..])
  }

  predicate StartsWith(s: seq<char>, p: seq<char>) { |p| <= |s| && s[..|p|] == p }

  predicate EndsWith(s: seq<char>, p: seq<char>) { |p| <= |s| && s[|s| - |p|..] == p }

  predicate Contains(s: seq<char>, p: seq<char>)
  {
    exists k :: 0 <= k <= |s| && StartsWith(s[k..], p)
  }

  /**
   * The ligature a corrupted symbol most likely stood for, from the letters
   * around it: "fl" before "ow", "ff" before a few known word endings, and
   * "fi" by default.
   */
  function DetermineLigature(prefix: seq<char>, suffix: seq<char>, symbol: seq<char>): (r: seq<char>)
    ensures r == "fl" || r == "ff" || r == "fi"
  {
    var context := Lowercase(prefix + suffix);
    if suffix == "ows" || suffix == "ow"
       || (Contains(context, "work") && StartsWith(suffix, "ow"))
       || (Contains(context, "over") && StartsWith(suffix, "ow"))
    then "fl"
    else if (Contains(context, "e") && StartsWith(suffix, "ective"))
         || (Contains(context, "o") && StartsWith(suffix, "ice"))
         || (Contains(context, "di") && StartsWith(suffix, "erent"))
         || (Contains(context, "sta") && StartsWith(suffix, "ing"))
    then "ff"
    else if EndsWith(suffix, "ed") || EndsWith(suffix, "es") || EndsWith(suffix, "ng")
         || EndsWith(suffix, "er") || EndsWith(suffix, "le") || EndsWith(suffix, "al")
         || StartsWith(context, "uni") || StartsWith(context, "simpli") || StartsWith(context, "identi")
         || StartsWith(context, "speci") || StartsWith(context, "bene") || StartsWith(context, "signi")
         || StartsWith(context, "classi") || StartsWith(context, "certi")
    then "fi"
    else if symbol == "!" then (if suffix == "ows" || StartsWith(suffix, "ow") then "fl" else "fi")
    else if symbol == "&" || symbol == "\"" then "ff"
    else "fi"
  }

  lemma LigatureBeforeOw(prefix: seq<char>, suffix: seq<char>, symbol: seq<char>)
    requires suffix == "ow" || suffix == "ows"
    ensures DetermineLigature(prefix, suffix, symbol) == "fl"
  {
  }

  /** "fl" is only ever guessed in front of "ow". */
  lemma LigatureFlNeedsOw(prefix: seq<char>, suffix: seq<char>, symbol: seq<char>)
    ensures DetermineLigature(prefix, suffix, symbol) == "fl" ==> StartsWith(suffix, "ow")
  {
  }

  /** "ff" is guessed only before a known ending or for the symbols `&` and `"`. */
  lemma LigatureFfCases(prefix: seq<char>, suffix: seq<char>, symbol: seq<char>)
    ensures DetermineLigature(prefix, suffix, symbol) == "ff" ==>
      StartsWith(suffix, "ective") || StartsWith(suffix, "ice") || StartsWith(suffix, "erent")
      || StartsWith(suffix, "ing") || symbol == "&" || symbol == "\""
  {
  }

  /**
   * `fix_utf8_corruption`: empty text is returned as it is; otherwise the
   * repair, then the regex-driven ligature fix (a parameter here), then the
   * control-character filter.
   */
  function FixText(text: seq<char>, fixLigatures: seq<char> -> seq<char>): (r: seq<char>)
    ensures |text| == 0 ==> r == text
    ensures |text| > 0 ==> forall k :: 0 <= k < |r| ==> Printable(r[k])
  {
    if |text| == 0 then text else RemoveControl(fixLigatures(Repair(text)))
  }

  /** With an identity ligature step, clean text goes through unchanged. */
  lemma FixTextOfCleanText(text: seq<char>)
    requires forall k :: 0 <= k < |text| ==> Printable(text[k]) && Code(text[k]) != 0xE2 && Code(text[k]) != 0xF0
    ensures FixText(text, Identity) == text
  {
    RepairWithoutLeads(text);
    RemoveControlOfPrintable(text);
  }

  function Identity(s: seq<char>): seq<char> { s }
}
