/** How a path component is compared with a record: Joliet, plain identifiers, Rock Ridge names. */
module IsoNames {
  import opened Bytes

  const SEMICOLON: byte := 0x3b
  const DOT: byte := 0x2e

  /** Identifiers 0x00 and 0x01 name the directory itself and its parent. */
  predicate IsSpecialId(name: seq<byte>) { |name| == 1 && (name[0] == 0 || name[0] == 1) }

  // ---------- Joliet ----------

  /** Position of the first UCS-2 semicolon at an even offset, or the length of the name. */
  function VersionAt(name: seq<byte>, idx: nat): (k: nat)
    requires idx <= |name|
    ensures idx <= k <= |name|
    decreases |name| - idx
  {
    if idx + 1 >= |name| then |name|
    else if name[idx] == 0 && name[idx + 1] == SEMICOLON then idx
    else VersionAt(name, idx + 2)
  }

  /** Big-endian UCS-2 for characters below 256. */
  function Ucs2(component: seq<byte>): (u: seq<byte>)
    ensures |u| == 2 * |component|
  {
    if component == [] then [] else [0, component[0]] + Ucs2(component[1..])
  }

  /** A Joliet record names the component whose UCS-2 form it holds before any version suffix. */
  predicate JolietMatches(name: seq<byte>, component: seq<byte>) {
    !IsSpecialId(name) && name[..VersionAt(name, 0)] == Ucs2(component)
  }

  lemma {:induction false} Ucs2At(component: seq<byte>, i: nat)
    requires i < |component|
    ensures Ucs2(component)[2 * i] == 0 && Ucs2(component)[2 * i + 1] == component[i]
  {
    if i > 0 {
      Ucs2At(component[1..], i - 1);
    }
  }

  method MatchJolietName(recordName: seq<byte>, component: seq<byte>) returns (b: bool)
    ensures b == JolietMatches(recordName, component)
  {
    if IsSpecialId(recordName) {
      return false;
    }
    var name := recordName;
    var idx := 0;
    ghost var cut := VersionAt(recordName, 0);
    while idx + 1 < |name|
      invariant 0 <= idx <= |recordName| && name == recordName
      invariant cut == VersionAt(recordName, idx)
    {
      if name[idx] == 0 && name[idx + 1] == SEMICOLON {
        name := name[..idx];
        break;
      }
      idx := idx + 2;
    }
    assert name == recordName[..cut];
    if |name| != 2 * |component| {
      return false;
    }
    for ci := 0 to |component|
      invariant forall i :: 0 <= i < ci ==> name[2 * i] == 0 && name[2 * i + 1] == component[i]
    {
      if name[2 * ci] != 0 || name[2 * ci + 1] != component[ci] {
        Ucs2At(component, ci);
        return false;
      }
    }
    SameAsUcs2(name, component);
    b := true;
  }

  lemma SameAsUcs2(name: seq<byte>, component: seq<byte>)
    requires |name| == 2 * |component|
    requires forall i :: 0 <= i < |component| ==> name[2 * i] == 0 && name[2 * i + 1] == component[i]
    ensures name == Ucs2(component)
  {
    forall j | 0 <= j < |name| ensures name[j] == Ucs2(component)[j] {
      Ucs2At(component, j / 2);
      assert j == 2 * (j / 2) || j == 2 * (j / 2) + 1;
    }
  }

  lemma {:induction false} Ucs2Injective(a: seq<byte>, b: seq<byte>)
    requires Ucs2(a) == Ucs2(b)
    ensures a == b
  {
    if a != [] {
      assert Ucs2(a)[2..] == Ucs2(a[1..]) && Ucs2(b)[2..] == Ucs2(b[1..]);
      assert Ucs2(a)[1] == a[0] && Ucs2(b)[1] == b[0];
      Ucs2Injective(a[1..], b[1..]);
      assert a == [a[0]] + a[1..] && b == [b[0]] + b[1..];
    }
  }

  lemma {:induction false} NoVersion(pre: seq<byte>, a: seq<byte>, suffix: seq<byte>)
    requires SEMICOLON !in a && |pre| % 2 == 0
    requires suffix == [] || (|suffix| >= 2 && suffix[0] == 0 && suffix[1] == SEMICOLON)
    ensures VersionAt(pre + Ucs2(a) + suffix, |pre|) == |pre| + |Ucs2(a)|
    decreases |a|
  {
    var whole := pre + Ucs2(a) + suffix;
    if a != [] {
      var pre' := pre + [0, a[0]];
      NoVersion(pre', a[1..], suffix);
      assert whole == pre' + Ucs2(a[1..]) + suffix;
      assert whole[|pre|] == 0 && whole[|pre| + 1] == a[0];
    }
  }

  /** A record that holds a plain name, with or without a version suffix, matches that name alone. */
  lemma JolietNamesExactly(a: seq<byte>, suffix: seq<byte>, component: seq<byte>)
    requires a != [] && SEMICOLON !in a
    requires suffix == [] || (|suffix| >= 2 && suffix[0] == 0 && suffix[1] == SEMICOLON)
    ensures JolietMatches(Ucs2(a) + suffix, component) <==> component == a
  {
    hide VersionAt, Ucs2;
    NoVersion([], a, suffix);
    var name := Ucs2(a) + suffix;
    assert [] + Ucs2(a) + suffix == name;
    assert name[..|Ucs2(a)|] == Ucs2(a);
    if Ucs2(a) == Ucs2(component) { Ucs2Injective(a, component); }
  }

  // ---------- plain identifiers ----------

  function Lower(c: byte): byte { if 0x41 <= c <= 0x5a then c + 0x20 else c }

  predicate EqualIgnoreCase(a: seq<byte>, b: seq<byte>) {
    |a| == |b| && forall i :: 0 <= i < |a| ==> Lower(a[i]) == Lower(b[i])
  }

  function UpToSemicolon(name: seq<byte>): (r: seq<byte>)
    ensures r <= name
  {
    if name == [] || name[0] == SEMICOLON then [] else [name[0]] + UpToSemicolon(name[1..])
  }

  function WithoutTrailingDot(name: seq<byte>): seq<byte> {
    if name != [] && name[|name| - 1] == DOT then name[..|name| - 1] else name
  }

  predicate PlainMatches(name: seq<byte>, component: seq<byte>) {
    !IsSpecialId(name) && EqualIgnoreCase(WithoutTrailingDot(UpToSemicolon(name)), component)
  }

  lemma {:induction false} UpToSemicolonOf(a: seq<byte>, suffix: seq<byte>)
    requires SEMICOLON !in a && (suffix == [] || suffix[0] == SEMICOLON)
    ensures UpToSemicolon(a + suffix) == a
  {
    if a != [] {
      UpToSemicolonOf(a[1..], suffix);
      assert (a + suffix)[1..] == a[1..] + suffix;
    } else {
      assert a + suffix == suffix;
    }
  }

  /** Version suffix and one trailing dot are ignored, and so is ASCII case. */
  lemma PlainNamesExactly(a: seq<byte>, dot: bool, suffix: seq<byte>, component: seq<byte>)
    requires a != [] && SEMICOLON !in a && a[|a| - 1] != DOT && (suffix == [] || suffix[0] == SEMICOLON)
    requires !IsSpecialId(a)
    ensures PlainMatches(a + (if dot then [DOT] else []) + suffix, component) <==> EqualIgnoreCase(a, component)
  {
    hide UpToSemicolon, EqualIgnoreCase;
    var base := a + (if dot then [DOT] else []);
    UpToSemicolonOf(base, suffix);
    assert WithoutTrailingDot(base) == a;
  }

  // ---------- Rock Ridge ----------

  /** SUSP section 5.3: the SP entry of the root says how many leading bytes each system-use area reserves. */
  function RrSkipLen(rootDotSu: seq<byte>): byte {
    if |rootDotSu| >= 7 && rootDotSu[0] == 0x53 && rootDotSu[1] == 0x50 && rootDotSu[2] == 7
       && rootDotSu[4] == 0xBE && rootDotSu[5] == 0xEF
    then rootDotSu[6] else 0
  }

  datatype RrName = NoName | Incomplete | Name(name: seq<byte>)

  /** What the scan has gathered: name bytes, whether any NM was seen, whether it continues, any CE. */
  datatype Gathered = Gathered(name: seq<byte>, haveNm: bool, more: bool, sawCe: bool)

  const NAME_BUFFER := 256

  function Verdict(g: Gathered): RrName {
    if g.haveNm then (if g.more then Incomplete else Name(g.name))
    else if g.sawCe then Incomplete else NoName
  }

  function ScanFrom(su: seq<byte>, i: nat, g: Gathered): RrName
    requires i <= |su|
    decreases |su| - i
  {
    if i + 4 > |su| then Verdict(g) else
    var len: nat := su[i + 2];
    if len < 4 || i + len > |su| then Verdict(g)
    else if su[i] == 0x53 && su[i + 1] == 0x54 then Verdict(g) else
    var g1 := if su[i] == 0x43 && su[i + 1] == 0x45 then g.(sawCe := true) else g;
    if su[i] == 0x4e && su[i + 1] == 0x4d && len >= 5 && su[i + 4] / 2 % 4 == 0 then
      var payload := su[i + 5..i + len];
      if |g1.name| + |payload| > NAME_BUFFER then Incomplete
      else ScanFrom(su, i + len, Gathered(g1.name + payload, true, su[i + 4] % 2 == 1, g1.sawCe))
    else ScanFrom(su, i + len, g1)
  }

  const NOTHING := Gathered([], false, false, false)

  function RrNameOf(suArea: seq<byte>, skip: nat): RrName {
    if skip >= |suArea| then NoName else ScanFrom(suArea[skip..], 0, NOTHING)
  }

  method ReadRrName(suArea: seq<byte>, skip: nat) returns (r: RrName)
    ensures r == RrNameOf(suArea, skip)
  {
    if skip >= |suArea| {
      return NoName;
    }
    var su := suArea[skip..];
    var g := NOTHING;
    var i := 0;
    while i + 4 <= |su|
      invariant 0 <= i <= |su|
      invariant RrNameOf(suArea, skip) == ScanFrom(su, i, g)
      decreases |su| - i
    {
      var len: nat := su[i + 2];
      if len < 4 || i + len > |su| {
        break;
      }
      if su[i] == 0x53 && su[i + 1] == 0x54 {
        break;
      }
      if su[i] == 0x43 && su[i + 1] == 0x45 {
        g := g.(sawCe := true);
      }
      if su[i] == 0x4e && su[i + 1] == 0x4d && len >= 5 {
        var nmFlags := su[i + 4];
        if nmFlags / 2 % 4 == 0 {
          var payload := su[i + 5..i + len];
          if |g.name| + |payload| > NAME_BUFFER {
            return Incomplete;
          }
          g := Gathered(g.name + payload, true, nmFlags % 2 == 1, g.sawCe);
        }
      }
      i := i + len;
    }
    r := Verdict(g);
  }

  // ---------- Rock Ridge areas as they are written ----------

  /** One system-use entry: signature, version and data (the length byte follows from the data). */
  datatype SuEntry = SuEntry(sig0: byte, sig1: byte, version: byte, data: seq<byte>)

  predicate EntryFits(e: SuEntry) { |e.data| <= 251 && !(e.sig0 == 0x53 && e.sig1 == 0x54) }

  function EntryBytes(e: SuEntry): (bs: seq<byte>)
    requires EntryFits(e)
    ensures |bs| == 4 + |e.data|
  {
    [e.sig0, e.sig1, 4 + |e.data|, e.version] + e.data
  }

  function AreaBytes(es: seq<SuEntry>): seq<byte>
    requires forall e :: e in es ==> EntryFits(e)
  {
    if es == [] then [] else AreaBytes(es[..|es| - 1]) + EntryBytes(es[|es| - 1])
  }

  /** An NM entry that carries a real name: neither CURRENT nor PARENT is set. */
  predicate Names(e: SuEntry) { e.sig0 == 0x4e && e.sig1 == 0x4d && e.data != [] && e.data[0] / 2 % 4 == 0 }

  predicate IsCe(e: SuEntry) { e.sig0 == 0x43 && e.sig1 == 0x45 }

  /** The alternate name spread over the naming entries. */
  function NameBytes(es: seq<SuEntry>): seq<byte> {
    if es == [] then [] else
    NameBytes(es[..|es| - 1]) + (if Names(es[|es| - 1]) then es[|es| - 1].data[1..] else [])
  }

  /** The last naming entry announces a continuation. */
  predicate Continues(es: seq<SuEntry>) {
    es != [] &&
    if Names(es[|es| - 1]) then es[|es| - 1].data[0] % 2 == 1 else Continues(es[..|es| - 1])
  }

  function Summary(es: seq<SuEntry>): Gathered {
    Gathered(NameBytes(es), exists e :: e in es && Names(e), Continues(es), exists e :: e in es && IsCe(e))
  }

  /** Nothing the scan would read on: too short, no length that fits, or the ST terminator. */
  predicate Ends(tail: seq<byte>) {
    |tail| < 4 || tail[2] < 4 || tail[2] > |tail| || (tail[0] == 0x53 && tail[1] == 0x54)
  }

  lemma SummarySnoc(es: seq<SuEntry>, e: SuEntry)
    ensures Summary(es + [e]) ==
            var g := Summary(es);
            Gathered(g.name + (if Names(e) then e.data[1..] else []), g.haveNm || Names(e),
                     if Names(e) then e.data[0] % 2 == 1 else g.more, g.sawCe || IsCe(e))
  {
    var all := es + [e];
    assert all[..|es|] == es && all[|es|] == e;
    assert forall x :: x in all <==> x in es || x == e;
  }

  lemma ScanStep(su: seq<byte>, pre: seq<byte>, e: SuEntry, post: seq<byte>, g: Gathered)
    requires EntryFits(e) && su == pre + EntryBytes(e) + post
    requires Names(e) ==> |g.name| + |e.data| - 1 <= NAME_BUFFER
    ensures ScanFrom(su, |pre|, g) ==
            ScanFrom(su, |pre| + |EntryBytes(e)|,
                     Gathered(g.name + (if Names(e) then e.data[1..] else []), g.haveNm || Names(e),
                              if Names(e) then e.data[0] % 2 == 1 else g.more, g.sawCe || IsCe(e)))
  {
    var i := |pre|;
    assert su[i] == e.sig0 && su[i + 1] == e.sig1 && su[i + 2] == 4 + |e.data|;
    if e.data != [] {
      assert su[i + 4] == e.data[0];
      assert su[i + 5..i + 4 + |e.data|] == e.data[1..];
    }
    assert g.name + [] == g.name;
  }

  lemma {:induction false} ScanArea(es: seq<SuEntry>, k: nat, tail: seq<byte>)
    requires (forall e :: e in es ==> EntryFits(e)) && |NameBytes(es)| <= NAME_BUFFER && Ends(tail) && k <= |es|
    requires forall e :: e in es[..k] ==> EntryFits(e)
    requires |AreaBytes(es[..k])| <= |AreaBytes(es) + tail|
    ensures ScanFrom(AreaBytes(es) + tail, |AreaBytes(es[..k])|, Summary(es[..k])) == Verdict(Summary(es))
    decreases |es| - k
  {
    hide ScanFrom, Summary, AreaBytes, NameBytes, EntryFits;
    var su := AreaBytes(es) + tail;
    if k == |es| {
      assert es[..k] == es;
      ScanEnds(AreaBytes(es), tail, Summary(es));
    } else {
      var e, done := es[k], es[..k];
      assert es[..k + 1] == done + [e];
      AreaSplit(es, k);
      SummarySnoc(done, e);
      NameGrows(es, k + 1);
      var post := AreaRest(es, k + 1);
      ScanStep(su, AreaBytes(done), e, post + tail, Summary(done)) by {
        NameSnoc(done, e);
        assert su == AreaBytes(done) + EntryBytes(e) + (post + tail);
        assert Summary(done).name == NameBytes(done) by { SummaryName(done); }
      }
      ScanArea(es, k + 1, tail);
    }
  }

  lemma SummaryName(es: seq<SuEntry>)
    ensures Summary(es).name == NameBytes(es)
  {
  }

  lemma NameSnoc(es: seq<SuEntry>, e: SuEntry)
    ensures NameBytes(es + [e]) == NameBytes(es) + (if Names(e) then e.data[1..] else [])
  {
    assert (es + [e])[..|es|] == es;
  }

  lemma ScanEnds(pre: seq<byte>, tail: seq<byte>, g: Gathered)
    requires Ends(tail)
    ensures ScanFrom(pre + tail, |pre|, g) == Verdict(g)
  {
    var su := pre + tail;
    if |tail| >= 4 {
      assert su[|pre|] == tail[0] && su[|pre| + 1] == tail[1] && su[|pre| + 2] == tail[2];
    }
  }

  ghost function AreaRest(es: seq<SuEntry>, k: nat): seq<byte>
    requires k <= |es| && (forall e :: e in es ==> EntryFits(e))
  {
    assert forall e :: e in es[k..] ==> e in es;
    AreaBytes(es[k..])
  }

  lemma {:induction false} AreaConcat(a: seq<SuEntry>, b: seq<SuEntry>)
    requires forall e :: e in a || e in b ==> EntryFits(e)
    ensures AreaBytes(a + b) == AreaBytes(a) + AreaBytes(b)
    decreases |b|
  {
    hide EntryFits, EntryBytes;
    if b == [] {
      assert a + b == a;
    } else {
      var n := |b| - 1;
      AreaConcat(a, b[..n]);
      var all := a + b;
      assert all[..|all| - 1] == a + b[..n] && all[|all| - 1] == b[n];
      assert AreaBytes(a) + (AreaBytes(b[..n]) + EntryBytes(b[n])) == AreaBytes(a) + AreaBytes(b[..n]) + EntryBytes(b[n]);
    }
  }

  lemma AreaSnoc(es: seq<SuEntry>, k: nat)
    requires k < |es| && forall e :: e in es ==> EntryFits(e)
    ensures AreaBytes(es[..k + 1]) == AreaBytes(es[..k]) + EntryBytes(es[k])
  {
    hide EntryFits, EntryBytes;
    var front := es[..k + 1];
    assert front[..k] == es[..k] && front[k] == es[k];
  }

  lemma AreaSplit(es: seq<SuEntry>, k: nat)
    requires k < |es| && forall e :: e in es ==> EntryFits(e)
    ensures AreaBytes(es) == AreaBytes(es[..k]) + EntryBytes(es[k]) + AreaRest(es, k + 1)
    ensures AreaBytes(es[..k + 1]) == AreaBytes(es[..k]) + EntryBytes(es[k])
  {
    hide EntryFits, AreaBytes, EntryBytes;
    var front, back := es[..k + 1], es[k + 1..];
    assert es == front + back;
    AreaConcat(front, back);
    AreaSnoc(es, k);
  }

  lemma {:induction false} NameGrows(es: seq<SuEntry>, k: nat)
    requires k <= |es|
    ensures |NameBytes(es[..k])| <= |NameBytes(es)|
    decreases |es|
  {
    if k < |es| {
      NameGrows(es[..|es| - 1], k);
      assert es[..|es| - 1][..k] == es[..k];
    } else {
      assert es[..k] == es;
    }
  }

  /** From a written area the scan reads the concatenated NM names; a name announced but not
      finished inline, or only a CE entry, counts as incomplete. */
  lemma RrNameOfArea(skipped: seq<byte>, es: seq<SuEntry>, tail: seq<byte>)
    requires (forall e :: e in es ==> EntryFits(e)) && |NameBytes(es)| <= NAME_BUFFER && Ends(tail)
    ensures RrNameOf(skipped + AreaBytes(es) + tail, |skipped|) ==
            if exists e :: e in es && Names(e) then (if Continues(es) then Incomplete else Name(NameBytes(es)))
            else if exists e :: e in es && IsCe(e) then Incomplete
            else NoName
  {
    hide ScanFrom, NameBytes, Continues, EntryFits;
    var su := skipped + AreaBytes(es) + tail;
    assert su[|skipped|..] == AreaBytes(es) + tail;
    ScanArea(es, 0, tail) by { assert es[..0] == []; }
    assert es[..0] == [];
    assert Summary([]) == NOTHING by { EmptySummary(); }
  }

  lemma EmptySummary()
    ensures Summary([]) == NOTHING
  {
  }

  /** Every area is a run of entries and an end. */
  lemma {:induction false} AreaFrom(su: seq<byte>, done: seq<SuEntry>) returns (es: seq<SuEntry>, tail: seq<byte>)
    requires (forall e :: e in done ==> EntryFits(e)) && |AreaBytes(done)| <= |su| && AreaBytes(done) == su[..|AreaBytes(done)|]
    ensures (forall e :: e in es ==> EntryFits(e)) && Ends(tail) && su == AreaBytes(es) + tail
    decreases |su| - |AreaBytes(done)|
  {
    var i := |AreaBytes(done)|;
    tail := su[i..];
    if Ends(tail) {
      es := done;
    } else {
      var len: nat := tail[2];
      var e := SuEntry(tail[0], tail[1], tail[3], tail[4..len]);
      var more := done + [e];
      assert more[..|done|] == done && more[|done|] == e;
      assert EntryBytes(e) == tail[..len];
      assert AreaBytes(more) == su[..i + len];
      es, tail := AreaFrom(su, more);
    }
  }

  lemma {:induction false} NameWithinArea(es: seq<SuEntry>)
    requires forall e :: e in es ==> EntryFits(e)
    ensures |NameBytes(es)| <= |AreaBytes(es)|
  {
    if es != [] { NameWithinArea(es[..|es| - 1]); }
  }
}
