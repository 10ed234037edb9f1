/**
 Recognising one emoji (internal/emoji/emoji.go) against the possible_emoji
 grammar of UTS #51, section 1.4.9.
*/
module Emoji {
  import opened Utf8

  const ZWJ := 0x200D
  const VS16 := 0xFE0F
  const KEYCAP := 0x20E3
  const TAG_BEGIN := 0xE0020
  const TAG_END := 0xE007E
  const TAG_TERM := 0xE007F
  const RI_FIRST := 0x1F1E6
  const RI_LAST := 0x1F1FF
  const BLACK_FLAG := 0x1F3F4
  const MAX_REACTION := 64
  const MAX_SEQUENCE := 24

  /** The emoji properties of the generated tables. */
  datatype Tables = Tables(
    emoji: int -> bool,
    presentation: int -> bool,
    modifier: int -> bool,
    modifierBase: int -> bool)

  predicate Tag(r: int) {
    TAG_BEGIN <= r <= TAG_END
  }

  predicate RegionalIndicator(r: int) {
    RI_FIRST <= r <= RI_LAST
  }

  /** What the tables say of the characters the grammar joins with: the joiner
      is no emoji, and joiner, variation selector and tags are no modifiers. */
  ghost predicate Proper(t: Tables) {
    && !t.emoji(ZWJ) && !t.modifier(ZWJ) && !t.modifier(VS16)
    && forall r :: Tag(r) ==> !t.modifier(r)
  }

  // ---- The grammar ----

  /** zwj_element := Emoji emoji_modification?, where emoji_modification :=
      Emoji_Modifier | FE0F 20E3? | tag_modifier, on any emoji. */
  ghost predicate ZwjElementOf(t: Tables, e: seq<int>) {
    && e != [] && t.emoji(e[0])
    && (|| |e| == 1
        || (|e| == 2 && t.modifier(e[1]))
        || (|e| == 2 && e[1] == VS16)
        || (|e| == 3 && e[1] == VS16 && e[2] == KEYCAP)
        || TagModified(e))
  }

  /** A base and its tag_modifier. */
  predicate TagModified(e: seq<int>) {
    |e| >= 3 && e[|e| - 1] == TAG_TERM && forall i :: 1 <= i < |e| - 1 ==> Tag(e[i])
  }

  /** The element shows as emoji: by default, or because it is modified. */
  predicate Presents(t: Tables, e: seq<int>)
    requires e != []
  {
    t.presentation(e[0]) || |e| > 1
  }

  /** What the recogniser asks beside the grammar: the base is no lone regional
      indicator, takes the modifier it has, and is the black flag under tags. */
  predicate Guarded(t: Tables, e: seq<int>)
    requires e != []
  {
    && !RegionalIndicator(e[0])
    && (|e| == 2 && t.modifier(e[1]) ==> t.modifierBase(e[0]))
    && (|e| >= 3 && Tag(e[1]) ==> e[0] == BLACK_FLAG)
  }

  /** What the recogniser takes for one element. */
  ghost predicate Element(t: Tables, e: seq<int>) {
    && e != [] && t.emoji(e[0]) && !RegionalIndicator(e[0])
    && (|| (|e| == 1 && t.presentation(e[0]))
        || (|e| == 2 && t.modifier(e[1]) && t.modifierBase(e[0]))
        || (|e| == 2 && e[1] == VS16)
        || (|e| == 3 && e[1] == VS16 && e[2] == KEYCAP)
        || (e[0] == BLACK_FLAG && TagModified(e)))
  }

  /** It is a zwj_element that presents, within the recogniser's guards. */
  lemma ElementIff(t: Tables, e: seq<int>)
    requires Proper(t)
    ensures Element(t, e) <==> ZwjElementOf(t, e) && Presents(t, e) && Guarded(t, e)
  {
  }

  function Join(elements: seq<seq<int>>): (s: seq<int>)
    requires elements != []
  {
    if |elements| == 1 then elements[0] else elements[0] + [ZWJ] + Join(elements[1..])
  }

  /** The pieces of s between its joiners. */
  function Pieces(s: seq<int>): (pieces: seq<seq<int>>)
    ensures pieces != []
  {
    if s == [] then [[]]
    else
      var rest := Pieces(s[1..]);
      if s[0] == ZWJ then [[]] + rest else [[s[0]] + rest[0]] + rest[1..]
  }

  /** elements is a way to read s as zwj_element (ZWJ zwj_element)*. */
  ghost predicate Derivation(t: Tables, elements: seq<seq<int>>, s: seq<int>) {
    elements != [] && (forall i :: 0 <= i < |elements| ==> ZwjElementOf(t, elements[i])) && Join(elements) == s
  }

  /** possible_emoji := flag_sequence | zwj_element (ZWJ zwj_element)* */
  ghost predicate PossibleEmoji(t: Tables, s: seq<int>) {
    Flag(s) || exists elements :: Derivation(t, elements, s)
  }

  /** The same as the recogniser reads it. */
  ghost predicate Parse(t: Tables, elements: seq<seq<int>>, s: seq<int>) {
    elements != [] && (forall i :: 0 <= i < |elements| ==> Element(t, elements[i])) && Join(elements) == s
  }

  predicate Flag(s: seq<int>) {
    |s| == 2 && RegionalIndicator(s[0]) && RegionalIndicator(s[1])
  }

  ghost predicate Readable(t: Tables, s: seq<int>) {
    exists elements :: Parse(t, elements, s)
  }

  lemma ElementHasNoJoiner(t: Tables, e: seq<int>)
    requires Proper(t) && (Element(t, e) || ZwjElementOf(t, e))
    ensures ZWJ !in e
  {
  }

  /** The first element a reading may start with ends where s ends or joins. */
  ghost predicate Leads(t: Tables, s: seq<int>, n: nat) {
    1 <= n <= |s| && Element(t, s[..n]) && (n == |s| || s[n] == ZWJ)
  }

  /** So where it ends is settled. */
  lemma LeadIsUnique(t: Tables, s: seq<int>, n: nat, k: nat)
    requires Proper(t) && Leads(t, s, n) && Leads(t, s, k)
    ensures n == k
  {
    ElementHasNoJoiner(t, s[..n]);
    ElementHasNoJoiner(t, s[..k]);
    assert forall i :: 0 <= i < n ==> s[..n][i] == s[i];
    assert forall i :: 0 <= i < k ==> s[..k][i] == s[i];
  }

  /** Reading on after the first element. */
  lemma ParseStep(t: Tables, elements: seq<seq<int>>, s: seq<int>)
    requires Parse(t, elements, s)
    ensures Leads(t, s, |elements[0]|) && s[..|elements[0]|] == elements[0]
    ensures |elements| == 1 <==> |elements[0]| == |s|
    ensures |elements| > 1 ==> Parse(t, elements[1..], s[|elements[0]| + 1..])
  {
    var e := elements[0];
    if |elements| > 1 {
      var rest := Join(elements[1..]);
      assert s == e + [ZWJ] + rest;
      assert s[|e| + 1..] == rest && s[..|e|] == e;
    } else {
      assert s[..|e|] == e;
    }
  }

  lemma ParseBuild(t: Tables, s: seq<int>, n: nat, rest: seq<seq<int>>)
    requires Leads(t, s, n) && n < |s| && Parse(t, rest, s[n + 1..])
    ensures Parse(t, [s[..n]] + rest, s)
  {
    var all := [s[..n]] + rest;
    assert all[1..] == rest;
    assert s == s[..n] + [ZWJ] + s[n + 1..];
  }

  /** Joining what has no joiner in it is undone by splitting at the joiners. */
  lemma {:induction false} PiecesOfJoin(elements: seq<seq<int>>)
    requires elements != [] && forall i :: 0 <= i < |elements| ==> ZWJ !in elements[i]
    ensures Pieces(Join(elements)) == elements
    decreases |elements|, |elements[0]|
  {
    var s, e := Join(elements), elements[0];
    if e == [] {
      if |elements| > 1 {
        PiecesOfJoin(elements[1..]);
        assert s[1..] == Join(elements[1..]);
      }
      assert elements == [[]] + elements[1..];
    } else {
      var shorter := [e[1..]] + elements[1..];
      assert shorter[1..] == elements[1..];
      assert s[1..] == Join(shorter);
      assert ZWJ != e[0] by {
        assert e[0] in elements[0];
      }
      PiecesOfJoin(shorter);
      assert e == [e[0]] + e[1..];
      assert elements == [[s[0]] + shorter[0]] + shorter[1..];
    }
  }

  /** So a sequence of the grammar has one derivation: its pieces. */
  lemma DerivationIsPieces(t: Tables, elements: seq<seq<int>>, s: seq<int>)
    requires Proper(t) && Derivation(t, elements, s)
    ensures elements == Pieces(s)
  {
    forall i | 0 <= i < |elements| ensures ZWJ !in elements[i] {
      ElementHasNoJoiner(t, elements[i]);
    }
    PiecesOfJoin(elements);
  }

  /** A piece presents as emoji and passes the recogniser's guards. */
  predicate Accepts(t: Tables, e: seq<int>) {
    e != [] && Presents(t, e) && Guarded(t, e)
  }

  /** The recogniser's reading and the grammar's come apart exactly where a
      piece does not present or a guard fails. */
  lemma ReadableIff(t: Tables, s: seq<int>)
    requires Proper(t)
    ensures Readable(t, s) <==> && (exists elements :: Derivation(t, elements, s))
                                && forall i :: 0 <= i < |Pieces(s)| ==> Accepts(t, Pieces(s)[i])
  {
    forall e ensures Element(t, e) <==> ZwjElementOf(t, e) && Accepts(t, e) {
      ElementIff(t, e);
    }
    if elements :| Parse(t, elements, s) {
      assert Derivation(t, elements, s);
      DerivationIsPieces(t, elements, s);
    }
    if elements :| Derivation(t, elements, s) {
      DerivationIsPieces(t, elements, s);
      assert (forall i :: 0 <= i < |elements| ==> Accepts(t, elements[i])) ==> Parse(t, elements, s);
    }
  }

  /** Whether s can be read depends only on its leading element and the rest. */
  lemma ReadsOn(t: Tables, s: seq<int>, n: nat)
    requires Proper(t) && Leads(t, s, n) && n < |s|
    ensures Readable(t, s) <==> Readable(t, s[n + 1..])
  {
    var tail := s[n + 1..];
    if Readable(t, s) {
      var elements :| Parse(t, elements, s);
      ParseStep(t, elements, s);
      LeadIsUnique(t, s, n, |elements[0]|);
      assert Parse(t, elements[1..], tail);
    }
    if Readable(t, tail) {
      var rest :| Parse(t, rest, tail);
      ParseBuild(t, s, n, rest);
    }
  }

  lemma CannotRead(t: Tables, s: seq<int>)
    requires forall n: nat :: !Leads(t, s, n)
    ensures !Readable(t, s)
  {
    forall elements ensures !Parse(t, elements, s) {
      if Parse(t, elements, s) {
        ParseStep(t, elements, s);
      }
    }
  }

  // ---- The recogniser ----

  /** What an element that leads s looks like, by the character after its base. */
  lemma LeadShape(t: Tables, s: seq<int>, k: nat)
    requires Proper(t) && Leads(t, s, k)
    ensures t.emoji(s[0]) && !RegionalIndicator(s[0])
    ensures k == 1 ==> t.presentation(s[0]) && (|s| == 1 || s[1] == ZWJ)
    ensures k > 1 ==>
              || (t.modifier(s[1]) && k == 2 && t.modifierBase(s[0]))
              || (s[1] == VS16 && (k == 2 || (k == 3 && s[2] == KEYCAP)))
              || (Tag(s[1]) && k >= 3 && s[0] == BLACK_FLAG && s[k - 1] == TAG_TERM && forall j :: 1 <= j < k - 1 ==> Tag(s[j]))
    ensures k == 2 && s[1] == VS16 && |s| > 2 ==> s[2] == ZWJ
  {
    var e := s[..k];
    assert forall j :: 0 <= j < k ==> e[j] == s[j];
  }

  /** zwjElement: consumes one element greedily. The greedy choice loses
      nothing: if s can start with an element at all, this is it. */
  method ZwjElement(t: Tables, s: seq<int>) returns (n: nat, ok: bool)
    requires Proper(t)
    ensures n <= |s| && (ok ==> n > 0 && Element(t, s[..n]))
    ensures forall k: nat :: Leads(t, s, k) ==> ok && n == k
  {
    if s == [] || !t.emoji(s[0]) || RegionalIndicator(s[0]) {
      forall k: nat | Leads(t, s, k) ensures false {
        LeadShape(t, s, k);
      }
      return 0, false;
    }
    var base := s[0];
    var presents := t.presentation(base);
    var i := 1;
    if i < |s| {
      var r := s[i];
      if t.modifier(r) {
        if !t.modifierBase(base) {
          forall k: nat | Leads(t, s, k) ensures false {
            LeadShape(t, s, k);
          }
          return 0, false;
        }
        i := i + 1;
        presents := true;
      } else if r == VS16 {
        i := i + 1;
        presents := true;
        if i < |s| && s[i] == KEYCAP {
          i := i + 1;
        }
      } else if Tag(r) {
        if base != BLACK_FLAG {
          forall k: nat | Leads(t, s, k) ensures false {
            LeadShape(t, s, k);
          }
          return 0, false;
        }
        while i < |s| && Tag(s[i])
          invariant 2 <= i + 1 && i <= |s| && (i == 1 ==> Tag(s[1]))
          invariant forall j :: 1 <= j < i ==> Tag(s[j])
        {
          i := i + 1;
        }
        if i >= |s| || s[i] != TAG_TERM {
          forall k: nat | Leads(t, s, k) ensures false {
            LeadShape(t, s, k);
          }
          return 0, false;
        }
        i := i + 1;
        presents := true;
      }
    }
    n, ok := i, presents;
    forall k: nat | Leads(t, s, k) ensures ok && n == k {
      LeadShape(t, s, k);
    }
  }

  /** What a text encodes is its runes, if it encodes anything. */
  lemma EncodedOnce(text: seq<Byte>)
    ensures forall cps :: Encodes(cps, text) <==> Valid(text) && cps == Runes(text)
  {
    forall cps ensures Encodes(cps, text) <==> Valid(text) && cps == Runes(text) {
      if Encodes(cps, text) {
        RunesOfEncoded(cps, text);
      }
      if Valid(text) {
        RunesEncode(text);
      }
    }
  }

  /** A possible_emoji sequence that is a flag or whose every piece presents as
      emoji and passes the guards. */
  ghost predicate Recognised(t: Tables, s: seq<int>) {
    PossibleEmoji(t, s) && (Flag(s) || forall i :: 0 <= i < |Pieces(s)| ==> Accepts(t, Pieces(s)[i]))
  }

  lemma RecognisedIff(t: Tables, s: seq<int>)
    requires Proper(t)
    ensures Recognised(t, s) <==> Flag(s) || Readable(t, s)
  {
    ReadableIff(t, s);
  }

  /** IsPossible: exactly the texts of at most 64 bytes that encode, in UTF-8, at
      most 24 code points that are such a sequence. */
  method IsPossible(t: Tables, text: seq<Byte>) returns (possible: bool)
    requires Proper(t)
    ensures possible <==> |text| <= 64 && exists cps | Encodes(cps, text) :: 0 < |cps| <= 24 && Recognised(t, cps)
  {
    EncodedOnce(text);
    if text == [] || |text| > MAX_REACTION || !Valid(text) {
      return false;
    }
    var runes := Runes(text);
    if |runes| > MAX_SEQUENCE {
      return false;
    }
    if |runes| == 2 && RegionalIndicator(runes[0]) && RegionalIndicator(runes[1]) {
      RecognisedIff(t, runes);
      return true;
    }
    RecognisedIff(t, runes);
    var i := 0;
    assert runes[0..] == runes;
    while true
      invariant 0 <= i < |runes|
      invariant Readable(t, runes) <==> Readable(t, runes[i..])
      decreases |runes| - i
    {
      var n, ok := ZwjElement(t, runes[i..]);
      if !ok {
        CannotRead(t, runes[i..]);
        return false;
      }
      ghost var s := runes[i..];
      i := i + n;
      if i == |runes| {
        assert s[..n] == s && Parse(t, [s], s);
        return true;
      }
      if runes[i] != ZWJ {
        forall k: nat ensures !Leads(t, s, k) {
          assert Leads(t, s, k) ==> k == n;
        }
        CannotRead(t, s);
        return false;
      }
      assert Leads(t, s, n);
      ReadsOn(t, s, n);
      assert s[n + 1..] == runes[i + 1..];
      i := i + 1;
      if i == |runes| {
        CannotReadNothing(t, runes[i..]);
        return false;
      }
    }
  }

  lemma CannotReadNothing(t: Tables, s: seq<int>)
    requires s == []
    ensures !Readable(t, s)
  {
    CannotRead(t, s);
  }

  // ---- Where the recogniser refuses what the grammar allows ----

  const GRINNING := 0x1F600
  const MEDIUM_SKIN := 0x1F3FD
  const REGIONAL_A := 0x1F1E6
  const TAG_SMALL_G := 0xE0067

  /** Tables that say of these characters what Unicode's do. */
  ghost predicate SaysUsual(t: Tables) {
    && t.emoji(GRINNING) && t.presentation(GRINNING) && !t.modifier(GRINNING) && !t.modifierBase(GRINNING)
    && t.modifier(MEDIUM_SKIN)
    && t.emoji(REGIONAL_A) && t.presentation(REGIONAL_A) && !t.modifier(REGIONAL_A)
  }

  /** A modifier on an emoji that takes none, tags on another emoji than the
      black flag, and a lone regional indicator are each one zwj_element that
      presents as emoji, and none of them is accepted. */
  lemma RefusedThoughPossible(t: Tables, s: seq<int>)
    requires Proper(t) && SaysUsual(t)
    requires s == [GRINNING, MEDIUM_SKIN] || s == [GRINNING, TAG_SMALL_G, TAG_TERM] || s == [REGIONAL_A]
    ensures ZwjElementOf(t, s) && Presents(t, s) && PossibleEmoji(t, s)
    ensures !Flag(s) && Pieces(s) == [s] && !Accepts(t, s)
  {
    assert Derivation(t, [s], s);
    DerivationIsPieces(t, [s], s);
  }

  // ---- Some sequences, written out ----

  const KEYCAP_ONE := [0x31, 0xFE0F, 0x20E3]
  const WAVE_MEDIUM := [0x1F44B, 0x1F3FD]
  const FLAG_A_Z := [0x1F1E6, 0x1F1FF]
  const SUBDIVISION := [0x1F3F4, 0xE0020, 0xE007E, 0xE007F]
  const TECHNOLOGIST := [0x1F9D1, 0x200D, 0x1F4BB]
  const TEXT_HEART := [0x2764, 0xFE0F]

  /** Tables that say of these characters what Unicode's do. */
  ghost predicate SaysOf(t: Tables) {
    && t.emoji(0x31) && !t.presentation(0x31) && t.emoji(0x2764) && !t.presentation(0x2764)
    && t.emoji(0x1F44B) && t.modifier(0x1F3FD) && t.modifierBase(0x1F44B)
    && t.emoji(0x1F3F4) && t.emoji(0x1F9D1) && t.presentation(0x1F9D1) && t.emoji(0x1F4BB) && t.presentation(0x1F4BB)
    && !t.modifier(0xFE0F) && !t.modifier(0x1F4BB) && !t.emoji(0x200D)
    && !t.emoji(0x1F1E5) && !t.emoji(0x1F200)
  }

  lemma OnePiece(t: Tables, e: seq<int>)
    requires Proper(t) && Element(t, e)
    ensures Recognised(t, e)
  {
    assert Parse(t, [e], e);
    RecognisedIff(t, e);
  }

  lemma TwoPieces(t: Tables, e: seq<int>, f: seq<int>)
    requires Proper(t) && Element(t, e) && Element(t, f)
    ensures Recognised(t, e + [0x200D] + f)
  {
    var elements := [e, f];
    assert elements[1..] == [f];
    assert Parse(t, elements, e + [0x200D] + f);
    RecognisedIff(t, e + [0x200D] + f);
  }

  /** A keycap, a modifier on a base, a flag, tags on the black flag, a joined
      pair and a text character with U+FE0F are recognised; the text characters
      alone and a sequence left open by a joiner are not. */
  lemma RecognisedExamples(t: Tables)
    requires Proper(t) && SaysOf(t)
    ensures Recognised(t, KEYCAP_ONE) && Recognised(t, WAVE_MEDIUM) && Recognised(t, FLAG_A_Z)
    ensures Recognised(t, SUBDIVISION) && Recognised(t, TECHNOLOGIST) && Recognised(t, TEXT_HEART)
    ensures !Recognised(t, [0x31]) && !Recognised(t, [0x2764]) && !Recognised(t, [0x1F9D1, 0x200D])
  {
    OnePiece(t, KEYCAP_ONE);
    OnePiece(t, WAVE_MEDIUM);
    OnePiece(t, SUBDIVISION);
    OnePiece(t, TEXT_HEART);
    assert Flag(FLAG_A_Z);
    TwoPieces(t, [0x1F9D1], [0x1F4BB]);
    assert [0x1F9D1] + [0x200D] + [0x1F4BB] == TECHNOLOGIST;
    forall e: seq<int> | e == [0x31] || e == [0x2764] ensures Pieces(e) == [e] && !Accepts(t, e) {
      PiecesOfJoin([e]);
    }
    PiecesOfJoin([[0x1F9D1], []]);
    assert Join([[0x1F9D1], []]) == [0x1F9D1] + [0x200D] + Join([[0x1F9D1], []][1..]) == [0x1F9D1, 0x200D];
    assert Pieces([0x31])[0] == [0x31] && Pieces([0x2764])[0] == [0x2764] && Pieces([0x1F9D1, 0x200D])[1] == [];
  }

  /** What has no joiner and is neither a flag nor one element is not recognised. */
  lemma OtherPiece(t: Tables, e: seq<int>)
    requires Proper(t) && e != [] && 0x200D !in e && !Flag(e) && !Element(t, e)
    ensures !Recognised(t, e)
  {
    PiecesOfJoin([e]);
    RecognisedIff(t, e);
    if elements :| Parse(t, elements, e) {
      forall i | 0 <= i < |elements| ensures ZWJ !in elements[i] {
        ElementHasNoJoiner(t, elements[i]);
      }
      PiecesOfJoin(elements);
    }
  }

  /** The characters just outside the ranges are neither tags nor regional indicators. */
  lemma RefusedExamples(t: Tables)
    requires Proper(t) && SaysOf(t)
    ensures !Recognised(t, [0x1F3F4, 0xE001F, 0xE007F]) && !Recognised(t, [0x1F3F4, 0xE007F, 0xE007F])
    ensures !Recognised(t, [0x1F1E5, 0x1F1E6]) && !Recognised(t, [0x1F200, 0x1F1FF])
  {
    assert !Tag([0x1F3F4, 0xE001F, 0xE007F][1]) && !Tag([0x1F3F4, 0xE007F, 0xE007F][1]);
    OtherPiece(t, [0x1F3F4, 0xE001F, 0xE007F]);
    OtherPiece(t, [0x1F3F4, 0xE007F, 0xE007F]);
    OtherPiece(t, [0x1F1E5, 0x1F1E6]);
    OtherPiece(t, [0x1F200, 0x1F1FF]);
  }
}
