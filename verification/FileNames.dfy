/** The virtual-filename codec: a recipe file, its class extension and its multiconfig in one string. */
module FileNames {

  predicate ColonFree(s: string) {
    ':' !in s
  }

  function Count(s: string): nat {
    if s == "" then 0 else (if s[0] == ':' then 1 else 0) + Count(s[1..])
  }

  /** `s.split(':')` */
  function Split(s: string): (parts: seq<string>)
    ensures parts != [] && forall p | p in parts :: ColonFree(p)
  {
    if s == "" then [""]
    else
      var rest := Split(s[1..]);
      if s[0] == ':' then [""] + rest
      else
        assert rest[0] in rest && ColonFree([s[0]] + rest[0]);
        [[s[0]] + rest[0]] + rest[1..]
  }

  /** `":".join(parts)` */
  function Join(parts: seq<string>): string {
    if parts == [] then "" else if |parts| == 1 then parts[0] else parts[0] + ":" + Join(parts[1..])
  }

  // ---- Splitting and joining -------------------------------------------------------------

  lemma {:induction false} JoinSplit(s: string)
    ensures Join(Split(s)) == s
  {
    if s != "" {
      JoinSplit(s[1..]);
      var rest := Split(s[1..]);
      if s[0] == ':' {
        assert ([""] + rest)[1..] == rest;
        assert "" + ":" + Join(rest) == s;
      } else {
        var parts := [[s[0]] + rest[0]] + rest[1..];
        assert parts[1..] == rest[1..];
        if |rest| > 1 {
          assert [s[0]] + rest[0] + ":" + Join(rest[1..]) == [s[0]] + (rest[0] + ":" + Join(rest[1..]));
        }
      }
    }
  }

  lemma {:induction false} SplitWord(w: string)
    requires ColonFree(w)
    ensures Split(w) == [w]
  {
    if w != "" {
      SplitWord(w[1..]);
      assert [w[0]] + w[1..] == w;
    }
  }

  lemma {:induction false} SplitConcat(a: string, b: string)
    ensures Split(a + ":" + b) == Split(a) + Split(b)
  {
    if a == "" {
      assert (a + ":" + b)[1..] == b;
    } else {
      assert (a + ":" + b)[1..] == a[1..] + ":" + b;
      SplitConcat(a[1..], b);
    }
  }

  lemma {:induction false} CountColons(s: string)
    ensures Count(s) == |Split(s)| - 1
  {
    if s != "" {
      CountColons(s[1..]);
    }
  }

  lemma OnePart(s: string)
    requires |Split(s)| == 1
    ensures ColonFree(s)
  {
    JoinSplit(s);
    assert Split(s)[0] in Split(s);
  }

  /** A string with a colon has more than one part, and none of them is the string. */
  lemma PartsDiffer(s: string)
    ensures ColonFree(s) <==> |Split(s)| == 1
    ensures !ColonFree(s) ==> s !in Split(s)
  {
    if ColonFree(s) {
      SplitWord(s);
    } else if |Split(s)| == 1 {
      OnePart(s);
    }
  }

  // ---- The codec -------------------------------------------------------------------------

  /** `tag + ":" + a + ":" + b` */
  function Tagged(tag: string, a: string, b: string): string {
    tag + ":" + a + ":" + b
  }

  /** `s.startswith(tag + ":")` */
  predicate HasTag(s: string, tag: string) {
    tag + ":" <= s
  }

  predicate McForm(s: string) {
    HasTag(s, "mc") && Count(s) >= 2
  }

  /** The second part of a string in mc form, and what `split(':', 2)` leaves after it. */
  function McOf(s: string): string
    requires McForm(s)
  {
    CountColons(s);
    Split(s)[1]
  }

  function AfterMc(s: string): string
    requires McForm(s)
  {
    CountColons(s);
    Join(Split(s)[2..])
  }

  /** `elems[1:-1]` */
  function Inner(elems: seq<string>): seq<string> {
    if |elems| <= 2 then [] else elems[1..|elems| - 1]
  }

  /** The file and class of a name after its multiconfig part. */
  function FileAndClass(rest: string): (string, string) {
    if HasTag(rest, "virtual") then
      var elems := Split(rest);
      (elems[|elems| - 1], Join(Inner(elems)))
    else (rest, "")
  }

  function VirtualFn2RealFn(virtualfn: string): (r: (string, string, string)) {
    var (fn, cls) := FileAndClass(if McForm(virtualfn) then AfterMc(virtualfn) else virtualfn);
    (fn, cls, if McForm(virtualfn) then McOf(virtualfn) else "")
  }

  function WithClass(realfn: string, cls: string): string {
    if cls != "" then Tagged("virtual", cls, realfn) else realfn
  }

  function RealFn2Virtual(realfn: string, cls: string, mc: string): string {
    var fn := WithClass(realfn, cls);
    if mc != "" then Tagged("mc", mc, fn) else fn
  }

  function Variant2Virtual(realfn: string, variant: string): string {
    if variant == "" then realfn
    else if McForm(variant) then
      CountColons(variant);
      var elems := Split(variant);
      if elems[2] != "" then Tagged("mc", elems[1], Tagged("virtual", Join(elems[2..]), realfn))
      else Tagged("mc", elems[1], realfn)
    else Tagged("virtual", variant, realfn)
  }

  // ---- Tags in terms of parts --------------------------------------------------------------

  lemma HasTagSplit(s: string, tag: string)
    requires ColonFree(tag)
    ensures HasTag(s, tag) <==> |Split(s)| > 1 && Split(s)[0] == tag
  {
    SplitWord(tag);
    if HasTag(s, tag) {
      var rest := s[|tag| + 1..];
      assert s == tag + ":" + rest;
      SplitConcat(tag, rest);
    }
    JoinSplit(s);
  }

  lemma TaggedSplit(tag: string, a: string, b: string)
    requires ColonFree(tag)
    ensures Split(Tagged(tag, a, b)) == [tag] + Split(a) + Split(b)
    ensures HasTag(Tagged(tag, a, b), tag)
  {
    SplitWord(tag);
    assert Tagged(tag, a, b) == tag + ":" + (a + ":" + b);
    SplitConcat(tag, a + ":" + b);
    SplitConcat(a, b);
    assert [tag] + (Split(a) + Split(b)) == [tag] + Split(a) + Split(b);
    HasTagSplit(Tagged(tag, a, b), tag);
  }

  lemma TaggedCancel(tag: string, a: string, b: string, c: string)
    requires Tagged(tag, a, b) == Tagged(tag, a, c)
    ensures b == c
  {
    var n := |tag| + 1 + |a| + 1;
    assert Tagged(tag, a, b)[n..] == b && Tagged(tag, a, c)[n..] == c;
  }

  lemma McParts(s: string)
    requires McForm(s)
    ensures |Split(s)| > 2 && Split(s)[0] == "mc"
    ensures s == Tagged("mc", McOf(s), AfterMc(s))
  {
    CountColons(s);
    HasTagSplit(s, "mc");
    JoinSplit(s);
    var parts := Split(s);
    assert parts[1..][1..] == parts[2..];
    var rest := Join(parts[2..]);
    assert s == parts[0] + ":" + (parts[1] + ":" + rest);
  }

  // ---- Decoding what was encoded -----------------------------------------------------------

  /** Stripping the multiconfig prefix of an encoded name gives it back exactly when it holds no colon. */
  lemma StripMc(mc: string, x: string)
    ensures McForm(Tagged("mc", mc, x)) && (McOf(Tagged("mc", mc, x)) == mc <==> ColonFree(mc))
    ensures ColonFree(mc) ==> AfterMc(Tagged("mc", mc, x)) == x
  {
    var s := Tagged("mc", mc, x);
    TaggedSplit("mc", mc, x);
    CountColons(s);
    PartsDiffer(mc);
    assert Split(s)[1] == Split(mc)[0];
    if ColonFree(mc) {
      SplitWord(mc);
      assert Split(s)[2..] == Split(x);
      JoinSplit(x);
    }
  }

  lemma StripClass(fn: string, cls: string)
    ensures FileAndClass(WithClass(fn, cls)) == (fn, cls) <==>
            if cls != "" then ColonFree(fn) else !HasTag(fn, "virtual")
  {
    PartsDiffer(fn);
    HasTagSplit(fn, "virtual");
    if cls != "" {
      var rest := Tagged("virtual", cls, fn);
      TaggedSplit("virtual", cls, fn);
      var elems := Split(rest);
      assert elems[|elems| - 1] == Split(fn)[|Split(fn)| - 1];
      if ColonFree(fn) {
        SplitWord(fn);
        assert Inner(elems) == Split(cls);
        JoinSplit(cls);
      }
    }
  }

  /** When decoding recovers exactly what was encoded. */
  predicate Decodable(fn: string, cls: string, mc: string) {
    && ColonFree(mc)
    && (if cls != "" then ColonFree(fn) else !HasTag(fn, "virtual"))
    && (mc == "" && cls == "" ==> !McForm(fn))
  }

  lemma VirtualIsNotMc(fn: string, cls: string)
    ensures !McForm(Tagged("virtual", cls, fn))
  {
    TaggedSplit("virtual", cls, fn);
    HasTagSplit(Tagged("virtual", cls, fn), "mc");
  }

  /** In particular: every colon-free file and multiconfig, with any class at all. */
  lemma DecodeEncode(fn: string, cls: string, mc: string)
    ensures VirtualFn2RealFn(RealFn2Virtual(fn, cls, mc)) == (fn, cls, mc) <==> Decodable(fn, cls, mc)
  {
    StripClass(fn, cls);
    if mc != "" {
      StripMc(mc, WithClass(fn, cls));
    } else if cls != "" {
      VirtualIsNotMc(fn, cls);
    } else if McForm(fn) {
      McDecodesElsewhere(fn);
    }
  }

  lemma ColonFreeDecodes(fn: string, cls: string, mc: string)
    requires ColonFree(fn) && ColonFree(mc)
    ensures VirtualFn2RealFn(RealFn2Virtual(fn, cls, mc)) == (fn, cls, mc)
  {
    PartsDiffer(fn);
    HasTagSplit(fn, "virtual");
    HasTagSplit(fn, "mc");
    DecodeEncode(fn, cls, mc);
  }

  /** A plain name in mc form never decodes to itself as a file. */
  lemma McDecodesElsewhere(fn: string)
    requires McForm(fn)
    ensures VirtualFn2RealFn(fn).0 != fn
  {
    McParts(fn);
    PartsDiffer(fn);
    var rest := AfterMc(fn);
    assert |rest| < |fn|;
    PartsDiffer(VirtualFn2RealFn(fn).0);
  }

  // ---- Encoding what was decoded -----------------------------------------------------------

  /** A name after its multiconfig part that names its class if it is virtual. */
  predicate ClassNamed(rest: string) {
    HasTag(rest, "virtual") ==> Join(Inner(Split(rest))) != ""
  }

  predicate Canonical(v: string) {
    if McForm(v) then McOf(v) != "" && ClassNamed(AfterMc(v)) else ClassNamed(v)
  }

  lemma {:induction false} JoinInner(parts: seq<string>)
    requires |parts| > 2
    ensures Join(parts) == Tagged(parts[0], Join(Inner(parts)), parts[|parts| - 1])
    decreases |parts|
  {
    var tail := parts[1..];
    if |parts| == 3 {
      assert Inner(parts) == [parts[1]] && tail[1..] == [parts[2]];
      assert Join(parts) == parts[0] + ":" + Join(tail) && Join(tail) == parts[1] + ":" + parts[2];
      assert parts[0] + ":" + (parts[1] + ":" + parts[2]) == Tagged(parts[0], parts[1], parts[2]);
    } else {
      JoinInner(tail);
      assert Inner(parts) == [parts[1]] + Inner(tail);
      assert Inner(parts)[1..] == Inner(tail);
      var inner, last := Join(Inner(tail)), parts[|parts| - 1];
      assert parts[0] + ":" + (parts[1] + ":" + inner + ":" + last)
             == parts[0] + ":" + (parts[1] + ":" + inner) + ":" + last;
    }
  }

  lemma RestoreClass(rest: string)
    ensures var (fn, cls) := FileAndClass(rest);
            (WithClass(fn, cls) == rest <==> ClassNamed(rest)) && |WithClass(fn, cls)| <= |rest|
  {
    HasTagSplit(rest, "virtual");
    if HasTag(rest, "virtual") {
      var parts := Split(rest);
      JoinSplit(rest);
      PartsDiffer(rest);
      if |parts| > 2 {
        JoinInner(parts);
      } else {
        assert parts[1..] == [parts[1]];
      }
    }
  }

  /** Encoding what was decoded gives the name back exactly when the name is canonical. */
  lemma EncodeDecode(v: string)
    ensures var (fn, cls, mc) := VirtualFn2RealFn(v); RealFn2Virtual(fn, cls, mc) == v <==> Canonical(v)
  {
    if McForm(v) {
      var mc, rest := McOf(v), AfterMc(v);
      McParts(v);
      RestoreClass(rest);
      var (fn, cls) := FileAndClass(rest);
      if mc != "" && RealFn2Virtual(fn, cls, mc) == v {
        TaggedCancel("mc", mc, WithClass(fn, cls), rest);
      }
    } else {
      RestoreClass(v);
    }
  }

  // ---- Cache keys --------------------------------------------------------------------------

  function VariantMc(variant: string): string {
    if McForm(variant) then McOf(variant) else ""
  }

  function VariantCls(variant: string): string {
    if !McForm(variant) then variant
    else
      CountColons(variant);
      if Split(variant)[2] != "" then AfterMc(variant) else ""
  }

  /** Both encoders agree, unless the variant names an empty multiconfig. */
  lemma VariantAgrees(fn: string, variant: string)
    ensures Variant2Virtual(fn, variant) == RealFn2Virtual(fn, VariantCls(variant), VariantMc(variant))
            <==> !(McForm(variant) && McOf(variant) == "")
  {
    if McForm(variant) {
      CountColons(variant);
      var elems := Split(variant);
      if elems[2] != "" {
        assert Join(elems[2..]) != "" by { assert elems[2..][0] == elems[2]; }
      }
    }
  }

  /** A multiconfig variant names its multiconfig, and has nothing after an empty class. */
  predicate WellFormedVariant(variant: string) {
    McForm(variant) ==> McOf(variant) != "" && VariantCls(variant) == AfterMc(variant)
  }

  /** The key of a well-formed variant determines both the file and the variant. */
  lemma KeyDecodes(fn: string, v: string)
    requires ColonFree(fn) && WellFormedVariant(v)
    ensures VirtualFn2RealFn(Variant2Virtual(fn, v)) == (fn, VariantCls(v), VariantMc(v))
    ensures v == if VariantMc(v) != "" then Tagged("mc", VariantMc(v), VariantCls(v)) else VariantCls(v)
  {
    VariantAgrees(fn, v);
    if McForm(v) {
      McParts(v);
      CountColons(v);
      assert McOf(v) in Split(v);
    }
    ColonFreeDecodes(fn, VariantCls(v), VariantMc(v));
  }

  /** A multiconfig variant whose class starts with an empty part: all of the class is dropped from the key. */
  predicate DropsClass(variant: string) {
    McForm(variant) && (CountColons(variant); Split(variant)[2] == "")
  }

  /** The parts of a key before the file. */
  function KeyParts(variant: string): seq<string> {
    if variant == "" then []
    else if DropsClass(variant) then ["mc", McOf(variant)]
    else if McForm(variant) then
      CountColons(variant);
      ["mc", McOf(variant), "virtual"] + Split(variant)[2..]
    else ["virtual"] + Split(variant)
  }

  lemma KeySplit(fn: string, v: string)
    requires ColonFree(fn)
    ensures Split(Variant2Virtual(fn, v)) == KeyParts(v) + [fn]
  {
    SplitWord(fn);
    if McForm(v) {
      McKeySplit(fn, v);
    } else if v != "" {
      TaggedSplit("virtual", v, fn);
    }
  }

  lemma McKeySplit(fn: string, v: string)
    requires ColonFree(fn) && McForm(v)
    ensures Split(Variant2Virtual(fn, v)) == KeyParts(v) + [fn]
  {
    CountColons(v);
    var m := McOf(v);
    assert m in Split(v);
    if DropsClass(v) {
      SplitWord(fn);
      SplitWord(m);
      TaggedSplit("mc", m, fn);
    } else {
      McTail(v);
      NestedSplit(m, AfterMc(v), fn);
    }
  }

  lemma NestedSplit(m: string, cls: string, fn: string)
    requires ColonFree(m) && ColonFree(fn)
    ensures Split(Tagged("mc", m, Tagged("virtual", cls, fn))) == ["mc", m, "virtual"] + Split(cls) + [fn]
  {
    SplitWord(fn);
    SplitWord(m);
    TaggedSplit("mc", m, Tagged("virtual", cls, fn));
    TaggedSplit("virtual", cls, fn);
    var tail := Split(cls) + [fn];
    assert ["virtual"] + Split(cls) + [fn] == ["virtual"] + tail;
    assert ["mc"] + [m] + (["virtual"] + tail) == ["mc", m, "virtual"] + tail;
  }

  lemma McTail(v: string)
    requires McForm(v)
    ensures |Split(v)| > 2 && Split(AfterMc(v)) == Split(v)[2..] && Split(v) == ["mc", McOf(v)] + Split(v)[2..]
  {
    McParts(v);
    assert McOf(v) in Split(v);
    SplitWord(McOf(v));
    TaggedSplit("mc", McOf(v), AfterMc(v));
    assert Split(v)[2..] == Split(AfterMc(v));
  }

  /** The parts determine the variant, except for a class that is dropped. */
  lemma PartsDetermine(v1: string, v2: string)
    ensures KeyParts(v1) == KeyParts(v2) <==> v1 == v2 || (DropsClass(v1) && DropsClass(v2) && McOf(v1) == McOf(v2))
  {
    JoinSplit(v1);
    JoinSplit(v2);
    if KeyParts(v1) == KeyParts(v2) {
      var p := KeyParts(v1);
      KeyKind(v1);
      KeyKind(v2);
      if p != [] && p[0] == "virtual" {
        assert p[1..] == Split(v1) && p[1..] == Split(v2);
      } else if |p| > 2 {
        McTail(v1);
        McTail(v2);
        assert p[3..] == Split(v1)[2..] && p[3..] == Split(v2)[2..];
      }
    }
  }

  /** The first part and the number of parts tell what kind of variant it is. */
  lemma KeyKind(v: string)
    ensures var p := KeyParts(v);
            && (v == "" <==> p == [])
            && (p != [] ==> (p[0] == "virtual" <==> !McForm(v)) && (McForm(v) ==> p[1..] != [] && p[1] == McOf(v)))
            && (McForm(v) ==> (|p| == 2 <==> DropsClass(v)))
  {
    assert "mc"[0] != "virtual"[0];
    if McForm(v) {
      CountColons(v);
    }
  }

  /**
   Two (file, variant) pairs with colon-free files share a cache key exactly if the file is the same and so is
   the variant, or both variants are of one multiconfig and their classes are dropped.
   */
  lemma KeysEqualExactly(fn1: string, v1: string, fn2: string, v2: string)
    requires ColonFree(fn1) && ColonFree(fn2)
    ensures Variant2Virtual(fn1, v1) == Variant2Virtual(fn2, v2) <==>
            fn1 == fn2 && (v1 == v2 || (DropsClass(v1) && DropsClass(v2) && McOf(v1) == McOf(v2)))
  {
    KeySplit(fn1, v1);
    KeySplit(fn2, v2);
    PartsDetermine(v1, v2);
    JoinSplit(Variant2Virtual(fn1, v1));
    JoinSplit(Variant2Virtual(fn2, v2));
    var p1, p2 := KeyParts(v1), KeyParts(v2);
    if p1 + [fn1] == p2 + [fn2] {
      assert (p1 + [fn1])[..|p1|] == p1 && (p2 + [fn2])[..|p2|] == p2;
      assert (p1 + [fn1])[|p1|] == fn1 && (p2 + [fn2])[|p2|] == fn2;
    }
  }

  /** No part of the variant is dropped from its key. */
  predicate DropsNothing(variant: string) {
    DropsClass(variant) ==> AfterMc(variant) == ""
  }

  /** So pairs whose variants lose nothing, such as well-formed ones, have distinct keys if they are distinct. */
  lemma KeysDistinct(fn1: string, v1: string, fn2: string, v2: string)
    requires ColonFree(fn1) && ColonFree(fn2) && DropsNothing(v1) && DropsNothing(v2)
    requires Variant2Virtual(fn1, v1) == Variant2Virtual(fn2, v2)
    ensures fn1 == fn2 && v1 == v2
  {
    KeysEqualExactly(fn1, v1, fn2, v2);
    if DropsClass(v1) && DropsClass(v2) && McOf(v1) == McOf(v2) {
      McParts(v1);
      McParts(v2);
    }
  }

  /** Two variants of one file with one key. */
  lemma KeysCollide(fn: string)
    ensures Tagged("mc", "a", "") != Tagged("mc", "a", ":b")
    ensures Variant2Virtual(fn, Tagged("mc", "a", "")) == Variant2Virtual(fn, Tagged("mc", "a", ":b"))
  {
    TaggedSplit("mc", "a", "");
    TaggedSplit("mc", "a", ":b");
    StripMc("a", "");
    StripMc("a", ":b");
    assert Split(":b")[0] == "";
    if Tagged("mc", "a", "") == Tagged("mc", "a", ":b") {
      TaggedCancel("mc", "a", "", ":b");
    }
  }

  /** The file can always be read off the key, whatever the variant. */
  lemma KeyNamesFile(fn1: string, v1: string, fn2: string, v2: string)
    requires ColonFree(fn1) && ColonFree(fn2) && Variant2Virtual(fn1, v1) == Variant2Virtual(fn2, v2)
    ensures fn1 == fn2
  {
    KeyEndsInFile(fn1, v1);
    KeyEndsInFile(fn2, v2);
  }

  lemma KeyEndsInFile(fn: string, v: string)
    requires ColonFree(fn)
    ensures var parts := Split(Variant2Virtual(fn, v)); parts[|parts| - 1] == fn
  {
    KeySplit(fn, v);
  }
}
