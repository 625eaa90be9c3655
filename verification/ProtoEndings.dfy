/** How a parse can end, and what each ending means for bytes that follow. */
module ProtoEndings {
  import opened Bytes
  import opened ProtoParser

  /** The last field returned was cut short by the end of the input. */
  predicate EndsCut(d: bytes)
    decreases |d|
  {
    && d != [] && ParseField(d).Some?
    && (!ParseField(d).value.whole || EndsCut(d[ParseField(d).value.used..]))
  }

  /** The parser stopped at a wire type that it does not know. */
  predicate EndsUnknown(d: bytes)
    decreases |d|
  {
    && d != []
    && (ParseField(d).None? || (ParseField(d).value.whole && EndsUnknown(d[ParseField(d).value.used..])))
  }

  /** Every input ends in exactly one of three ways. */
  lemma {:induction false} ThreeEndings(d: bytes)
    ensures Complete(d) <==> !EndsCut(d) && !EndsUnknown(d)
    ensures !(EndsCut(d) && EndsUnknown(d))
    decreases |d|
  {
    if d != [] && ParseField(d).Some? && ParseField(d).value.whole {
      ThreeEndings(d[ParseField(d).value.used..]);
    }
  }

  // ---------- One field at the end of the input ----------

  lemma {:induction false} LowBits(d: bytes)
    requires d != []
    ensures ReadVarint(d).value % 8 == d[0] as nat % 8
  {
  }

  /** A number cut short takes all there is; one more final byte completes it to a greater one. */
  lemma {:induction false} CutNumber(d: bytes, more: bytes)
    requires !ReadVarint(d).whole
    ensures ReadVarint(d).used == |d|
    ensures var n := ReadVarint(d + ([1] + more));
            && n.whole && n.used == |d| + 1
            && n.value >= ReadVarint(d).value + (if d == [] then 1 else 128)
    decreases |d|
  {
    var e := [1] + more;
    if d == [] {
      assert d + e == e;
    } else {
      assert (d + e)[1..] == d[1..] + e;
      CutNumber(d[1..], more);
    }
  }

  lemma CutValueTakesAll(tag: Number, rest: bytes)
    requires ParseValue(tag, rest).Some? && !ParseValue(tag, rest).value.whole && (tag.whole || rest == [])
    ensures ParseValue(tag, rest).value.used >= tag.used + |rest|
  {
    if !ReadVarint(rest).whole {
      CutNumber(rest, []);
    }
  }

  lemma CutFieldIsLast(d: bytes)
    requires d != [] && ParseField(d).Some? && !ParseField(d).value.whole
    ensures ParseField(d).value.used >= |d| && Parse(d) == [ParseField(d).value.field]
  {
    var tag := ReadVarint(d);
    if !tag.whole {
      CutNumber(d, []);
    }
    CutValueTakesAll(tag, d[tag.used..]);
    NothingBehind(d, ParseField(d).value.used);
  }

  lemma NothingBehind(d: bytes, n: nat)
    requires n >= |d|
    ensures Parse(Behind(d, n)) == []
  {
  }

  lemma FirstField(d: bytes)
    requires d != [] && ParseField(d).Some?
    ensures Parse(d) != [] && Parse(d)[0] == ParseField(d).value.field
  {
  }

  lemma UnknownStaysUnknown(d: bytes, e: bytes)
    requires d != [] && ParseField(d).None?
    ensures ParseField(d + e).None?
  {
    LowBits(d);
    LowBits(d + e);
  }

  /** The tag in front of more bytes, and what is behind it. */
  lemma TagExtends(d: bytes, e: bytes)
    requires ReadVarint(d).whole
    ensures ReadVarint(d + e) == ReadVarint(d) && (d + e)[ReadVarint(d).used..] == d[ReadVarint(d).used..] + e
  {
    VarintExtends(d, e);
    DropInside(d, e, ReadVarint(d).used);
  }

  lemma BiggerTag(v: nat, v': nat)
    requires v' >= v + 128
    ensures v' / 8 > v / 8
  {
  }

  lemma SameLowBits(d: bytes, e: bytes)
    requires d != []
    ensures ReadVarint(d + e).value % 8 == ReadVarint(d).value % 8
  {
    LowBits(d);
    LowBits(d + e);
  }

  lemma TagCompletes(d: bytes, more: bytes)
    requires d != [] && !ReadVarint(d).whole
    ensures var tag, tag' := ReadVarint(d), ReadVarint(d + ([1] + more));
            && tag'.used == |d| + 1 && (d + ([1] + more))[|d| + 1..] == more
            && tag'.value % 8 == tag.value % 8 && tag'.value / 8 > tag.value / 8
  {
    CutNumber(d, more);
    SameLowBits(d, [1] + more);
    BiggerTag(ReadVarint(d).value, ReadVarint(d + ([1] + more)).value);
  }

  /** One more byte after a field that is cut short belongs to that field. */
  lemma CutFieldTakesOneMore(d: bytes)
    requires d != [] && ParseField(d).Some? && !ParseField(d).value.whole
    ensures ParseField(d + [1]).Some? && ParseField(d + [1]).value.used >= |d| + 1
  {
    var tag := ReadVarint(d);
    var rest := d[tag.used..];
    assert [1] + [] == [1];
    if !tag.whole {
      TagCompletes(d, []);
    } else {
      TagExtends(d, [1]);
      if tag.value % 8 == 0 {
        CutNumber(rest, []);
      } else if tag.value % 8 == 2 {
        if ReadVarint(rest).whole {
          TagExtends(rest, [1]);
        } else {
          CutNumber(rest, []);
        }
      }
    }
  }

  lemma OneMoreRaw(body: bytes, size: nat, e: bytes)
    requires |body| < size && e != []
    ensures Front(body + e, size) != Front(body, size)
  {
    assert |Front(body + e, size)| > |body|;
  }

  /** The bytes 1 and 7 after a field that is cut short change the field. */
  lemma CutFieldChanges(d: bytes)
    requires d != [] && ParseField(d).Some? && !ParseField(d).value.whole
    ensures ParseField(d + [1, 7]).Some? && ParseField(d + [1, 7]).value.field != ParseField(d).value.field
  {
    var tag := ReadVarint(d);
    var rest := d[tag.used..];
    assert [1] + [7] == [1, 7];
    if !tag.whole {
      TagCompletes(d, [7]);
    } else {
      TagExtends(d, [1, 7]);
      if tag.value % 8 == 0 {
        CutNumber(rest, [7]);
      } else if tag.value % 8 == 2 {
        if ReadVarint(rest).whole {
          CutBodyChanges(rest);
        } else {
          CutLengthChanges(rest);
        }
      } else {
        OneMoreRaw(rest, if tag.value % 8 == 1 then 8 else 4, [1, 7]);
      }
    }
  }

  /** The length itself is cut: before, there is no byte of the value, and afterwards there is one. */
  lemma CutLengthChanges(rest: bytes)
    requires !ReadVarint(rest).whole
    ensures var len, len' := ReadVarint(rest), ReadVarint(rest + [1, 7]);
            Front((rest + [1, 7])[len'.used..], len'.value) != Front(rest[len.used..], len.value)
  {
    assert [1] + [7] == [1, 7];
    CutNumber(rest, [7]);
    assert (rest + [1, 7])[|rest| + 1..] == [7];
  }

  lemma CutBodyChanges(rest: bytes)
    requires var len := ReadVarint(rest); len.whole && len.value > |rest| - len.used
    ensures var len, len' := ReadVarint(rest), ReadVarint(rest + [1, 7]);
            Front((rest + [1, 7])[len'.used..], len'.value) != Front(rest[len.used..], len.value)
  {
    TagExtends(rest, [1, 7]);
    OneMoreRaw(rest[ReadVarint(rest).used..], ReadVarint(rest).value, [1, 7]);
  }

  // ---------- The exact conditions ----------

  lemma ParseOfOne()
    ensures Parse([1]) == [Field(0, 1, Raw([]))]
  {
    ParseStep([1], Number(1, 1, true), []);
  }

  /** An input that is not complete swallows a byte that follows it. */
  lemma {:induction false} IncompleteSwallows(d: bytes)
    requires !Complete(d)
    ensures |Parse(d + [1])| == |Parse(d)|
    decreases |d|
  {
    if ParseField(d).None? {
      UnknownStaysUnknown(d, [1]);
    } else if !ParseField(d).value.whole {
      CutFieldIsLast(d);
      CutFieldTakesOneMore(d);
    } else {
      var p, tail := ParseField(d).value, d[ParseField(d).value.used..];
      IncompleteSwallows(tail);
      WholeStep(d, [1], p, tail);
      ParseWhole(d, p, tail);
    }
  }

  /** Whatever follows an input is parsed as if it stood alone, if and only if the input is complete. */
  lemma ConcatenatesIffComplete(d: bytes)
    ensures (forall e: bytes :: Parse(d + e) == Parse(d) + Parse(e)) <==> Complete(d)
  {
    if Complete(d) {
      forall e: bytes
        ensures Parse(d + e) == Parse(d) + Parse(e)
      {
        ParseConcatenation(d, e);
      }
    } else {
      IncompleteSwallows(d);
      ParseOfOne();
      assert Parse(d + [1]) != Parse(d) + Parse([1]);
    }
  }

  lemma {:induction false} WholeFieldsStay(d: bytes, e: bytes)
    requires !EndsCut(d)
    ensures Parse(d) <= Parse(d + e)
    decreases |d|
  {
    if d != [] && ParseField(d).Some? {
      var p, tail := ParseField(d).value, d[ParseField(d).value.used..];
      WholeFieldsStay(tail, e);
      WholeStep(d, e, p, tail);
      ParseWhole(d, p, tail);
    }
  }

  lemma {:induction false} CutFieldDoesNotStay(d: bytes)
    requires EndsCut(d)
    ensures !(Parse(d) <= Parse(d + [1, 7]))
    decreases |d|
  {
    var p := ParseField(d).value;
    if p.whole {
      var tail := d[p.used..];
      CutFieldDoesNotStay(tail);
      WholeStep(d, [1, 7], p, tail);
      ParseWhole(d, p, tail);
      assert Parse(d + [1, 7])[1..] == Parse(tail + [1, 7]) && Parse(d)[1..] == Parse(tail);
    } else {
      CutFieldIsLast(d);
      CutFieldChanges(d);
      FirstField(d + [1, 7]);
    }
  }

  /** Every field returned is final, whatever else arrives, if and only if the input does not end inside a field. */
  lemma FinalIffNotCut(d: bytes)
    ensures (forall e: bytes :: Parse(d) <= Parse(d + e)) <==> !EndsCut(d)
  {
    if EndsCut(d) {
      CutFieldDoesNotStay(d);
    } else {
      forall e: bytes
        ensures Parse(d) <= Parse(d + e)
      {
        WholeFieldsStay(d, e);
      }
    }
  }
}
