/** What a record is called, said by the bytes it was written with, and that records match exactly what they are called. */
module IsoLabels {
  import opened Bytes
  import opened IsoRecords
  import opened IsoNames
  import opened IsoDirectory

  // ---------- names as written ----------

  /** Equal, or a letter and its other case. */
  predicate SameLetter(a: byte, b: byte) {
    a == b || (0x41 <= a <= 0x5a && b == a + 0x20) || (0x41 <= b <= 0x5a && a == b + 0x20)
  }

  predicate SameName(a: seq<byte>, b: seq<byte>) {
    |a| == |b| && forall i :: 0 <= i < |a| ==> SameLetter(a[i], b[i])
  }

  predicate DotDropped(base: seq<byte>, a: seq<byte>) {
    base == a + [0x2e] || (base == a && (a == [] || a[|a| - 1] != 0x2e))
  }

  /** The identifier up to a semicolon, less one trailing dot, is the component in some case. */
  ghost predicate PlainCalled(name: seq<byte>, c: seq<byte>) {
    && name != [0] && name != [1]
    && exists base: seq<byte>, a: seq<byte> ::
         base <= name && 0x3b !in base && (|base| == |name| || name[|base|] == 0x3b) && DotDropped(base, a) && SameName(a, c)
  }

  /** The identifier holds the component in two bytes per character, high byte zero, up to its end or a semicolon. */
  ghost predicate JolietCalled(name: seq<byte>, c: seq<byte>) {
    && 0x3b !in c && 2 * |c| <= |name|
    && (forall i :: 0 <= i < |c| ==> name[2 * i] == 0 && name[2 * i + 1] == c[i])
    && (|name| == 2 * |c| || (|name| >= 2 * |c| + 2 && name[2 * |c|] == 0 && name[2 * |c| + 1] == 0x3b))
  }

  /** Behind the skipped bytes the area is a run of entries, among them a name that is finished inline. */
  ghost predicate AreaNames(su: seq<byte>, skip: nat, n: seq<byte>) {
    exists es: seq<SuEntry>, tail: seq<byte> :: AreaIs(su, skip, es, tail) && Finished(es) && n == NameBytes(es)
  }

  ghost predicate AreaIs(su: seq<byte>, skip: nat, es: seq<SuEntry>, tail: seq<byte>) {
    && (forall e :: e in es ==> EntryFits(e)) && Ends(tail)
    && skip <= |su| && su[skip..] == AreaBytes(es) + tail
  }

  ghost predicate Finished(es: seq<SuEntry>) { (exists e :: e in es && Names(e)) && !Continues(es) }

  /** The component a record answers to: in the Joliet namespace its identifier; otherwise the Rock Ridge name if there
      is one that is finished inline, and only else its plain identifier. */
  ghost predicate Called(r: Record, ns: Namespace, skip: nat, c: seq<byte>) {
    match ns
    case Joliet => JolietCalled(r.name, c)
    case Primary =>
      if exists n :: AreaNames(r.su, skip, n) then AreaNames(r.su, skip, c) else PlainCalled(r.name, c)
  }

  // ---------- plain identifiers ----------

  lemma CaseMeans(a: seq<byte>, b: seq<byte>)
    ensures EqualIgnoreCase(a, b) <==> SameName(a, b)
  {
  }

  lemma {:induction false} UpToSemicolonIs(name: seq<byte>)
    ensures var base := UpToSemicolon(name);
            base <= name && 0x3b !in base && (|base| == |name| || name[|base|] == 0x3b)
  {
    if name != [] && name[0] != SEMICOLON { UpToSemicolonIs(name[1..]); }
  }

  lemma BaseUnique(name: seq<byte>, x: seq<byte>, y: seq<byte>)
    requires x <= name && 0x3b !in x && (|x| == |name| || name[|x|] == 0x3b)
    requires y <= name && 0x3b !in y && (|y| == |name| || name[|y|] == 0x3b)
    ensures x == y
  {
    assert x == name[..|x|] && y == name[..|y|];
  }

  lemma DotUnique(base: seq<byte>, a: seq<byte>)
    ensures DotDropped(base, a) <==> a == WithoutTrailingDot(base)
  {
    if base == a + [0x2e] { assert base[..|base| - 1] == a; }
    if a == WithoutTrailingDot(base) && base != [] && base[|base| - 1] == DOT { assert base == a + [0x2e]; }
  }

  lemma PlainExactly(name: seq<byte>, c: seq<byte>)
    ensures PlainMatches(name, c) <==> PlainCalled(name, c)
  {
    hide UpToSemicolon, EqualIgnoreCase, SameName, WithoutTrailingDot;
    assert IsSpecialId(name) <==> name == [0] || name == [1];
    var base := UpToSemicolon(name);
    var a := WithoutTrailingDot(base);
    UpToSemicolonIs(name);
    DotUnique(base, a);
    CaseMeans(a, c);
    forall x: seq<byte>, y: seq<byte>
      | x <= name && 0x3b !in x && (|x| == |name| || name[|x|] == 0x3b) && DotDropped(x, y)
      ensures y == a
    {
      BaseUnique(name, x, base);
      DotUnique(x, y);
    }
  }

  // ---------- Joliet identifiers ----------

  lemma JolietForm(name: seq<byte>, c: seq<byte>)
    requires JolietCalled(name, c)
    ensures name == Ucs2(c) + name[2 * |c|..] && JolietMatches(name, c)
  {
    hide VersionAt, Ucs2;
    var front, suffix := name[..2 * |c|], name[2 * |c|..];
    SameAsUcs2(front, c);
    assert name == Ucs2(c) + suffix;
    NoVersion([], c, suffix);
    assert [] + Ucs2(c) + suffix == name;
  }

  /** Where the search for a version ends: at one, or at the end without having met one. */
  lemma {:induction false} VersionEnds(name: seq<byte>, idx: nat)
    requires idx <= |name| && idx % 2 == 0
    ensures var k := VersionAt(name, idx);
            && (k == |name| || (k % 2 == 0 && k + 1 < |name| && name[k] == 0 && name[k + 1] == SEMICOLON))
            && forall i :: idx <= i < k - 1 && i % 2 == 0 ==> !(name[i] == 0 && name[i + 1] == SEMICOLON)
    decreases |name| - idx
  {
    if idx + 1 < |name| && !(name[idx] == 0 && name[idx + 1] == SEMICOLON) { VersionEnds(name, idx + 2); }
  }

  lemma JolietExactly(name: seq<byte>, c: seq<byte>)
    ensures JolietMatches(name, c) <==> JolietCalled(name, c)
  {
    hide VersionAt, Ucs2;
    if JolietCalled(name, c) {
      JolietForm(name, c);
    } else if JolietMatches(name, c) {
      VersionEnds(name, 0);
      var k := VersionAt(name, 0);
      assert k == 2 * |c|;
      forall i | 0 <= i < |c| ensures name[2 * i] == 0 && name[2 * i + 1] == c[i] && c[i] != SEMICOLON {
        Ucs2At(c, i);
        assert name[..k][2 * i] == name[2 * i] && name[..k][2 * i + 1] == name[2 * i + 1];
        assert 2 * i < k - 1 && (2 * i) % 2 == 0;
      }
      assert false;
    }
  }

  // ---------- Rock Ridge names ----------

  /** Any two readings of an area agree on the name. */
  lemma AreaReads(su: seq<byte>, skip: nat, es: seq<SuEntry>, tail: seq<byte>)
    requires AreaIs(su, skip, es, tail) && |su| <= NAME_BUFFER
    ensures Finished(es) ==> RrNameOf(su, skip) == Name(NameBytes(es))
    ensures !Finished(es) ==> !RrNameOf(su, skip).Name?
  {
    hide RrNameOf, NameBytes, Continues, EntryFits, Ends;
    NameWithinArea(es);
    var skipped := su[..skip];
    assert su == skipped + su[skip..] == skipped + AreaBytes(es) + tail;
    RrNameOfArea(skipped, es, tail);
  }

  lemma AreaExactly(su: seq<byte>, skip: nat, n: seq<byte>)
    requires |su| <= NAME_BUFFER
    ensures AreaNames(su, skip, n) <==> RrNameOf(su, skip) == Name(n)
  {
    hide AreaIs, Finished, NameBytes;
    forall es: seq<SuEntry>, tail: seq<byte> | AreaIs(su, skip, es, tail)
      ensures if Finished(es) then RrNameOf(su, skip) == Name(NameBytes(es)) else !RrNameOf(su, skip).Name?
    {
      AreaReads(su, skip, es, tail);
    }
    if skip <= |su| {
      var es, tail := AreaAt(su, skip);
    } else {
      NoArea(su, skip);
    }
  }

  lemma AreaAt(su: seq<byte>, skip: nat) returns (es: seq<SuEntry>, tail: seq<byte>)
    requires skip <= |su|
    ensures AreaIs(su, skip, es, tail)
  {
    hide AreaBytes, EntryFits, Ends;
    EmptyArea();
    es, tail := AreaFrom(su[skip..], []);
  }

  lemma EmptyArea()
    ensures AreaBytes([]) == []
  {
  }

  lemma NoArea(su: seq<byte>, skip: nat)
    requires skip > |su|
    ensures forall es, tail :: !AreaIs(su, skip, es, tail)
    ensures RrNameOf(su, skip) == NoName
  {
  }

  // ---------- the comparison of records ----------

  /** A record that fits its length byte matches a component exactly when it is called that. */
  lemma MatchesIsCalled(r: Record, q: Query)
    requires Fits(r)
    ensures RecordMatches(r, q) <==> Called(r, q.ns, q.skip, q.component)
  {
    hide AreaNames, PlainCalled, JolietCalled, RrNameOf, JolietMatches, PlainMatches, Pow256;
    JolietExactly(r.name, q.component);
    PlainExactly(r.name, q.component);
    forall n ensures AreaNames(r.su, q.skip, n) <==> RrNameOf(r.su, q.skip) == Name(n) { AreaExactly(r.su, q.skip, n); }
  }

  // ---------- the skip stated by the root ----------

  /** A sharing-protocol entry in front states how many bytes to skip; without one nothing is skipped. */
  ghost predicate SkipStated(su: seq<byte>, skip: nat) {
    if exists n: byte :: StatesSkip(su, n) then exists n: byte :: StatesSkip(su, n) && skip == n else skip == 0
  }

  predicate StatesSkip(su: seq<byte>, n: byte) {
    |su| >= 7 && su[..3] == [0x53, 0x50, 7] && su[4..7] == [0xBE, 0xEF, n]
  }

  lemma SkipExactly(su: seq<byte>, skip: nat)
    ensures SkipStated(su, skip) <==> skip == RrSkipLen(su)
  {
    if |su| >= 7 { assert su[..3] == [su[0], su[1], su[2]] && su[4..7] == [su[4], su[5], su[6]]; }
    if |su| >= 7 && su[..3] == [0x53, 0x50, 7] && su[4..6] == [0xBE, 0xEF] {
      assert StatesSkip(su, su[6]) by { assert su[4..6][0] == su[4] && su[4..6][1] == su[5]; }
    }
    forall n: byte | StatesSkip(su, n) ensures n == su[6] && RrSkipLen(su) == n {
      assert su[..3][0] == su[0] && su[..3][1] == su[1] && su[..3][2] == su[2];
      assert su[4..7][0] == su[4] && su[4..7][1] == su[5] && su[4..7][2] == su[6];
    }
    if RrSkipLen(su) != 0 { assert StatesSkip(su, su[6]); }
  }
}
