/**
  The converters of ConvertUTF.c over source and target buffers, each proved to be one run of its loop.
  Pointers are indices; a converter returns the two cursors that the C code stores through its arguments.
 */
module ConvertUTF {
  import opened Unicode
  import opened Decoding
  import opened Conversion

  // ---------------------------------------------------------------- legality

  /** Walks backwards from the end of the sequence, as the fall-through cases do. */
  method IsLegalUTF8(source: array<Utf8>, start: nat, length: nat) returns (legal: bool)
    requires start + length <= source.Length && 1 <= length
    requires length == TrailingBytes(source[start]) + 1
    ensures legal <==> Accepted8(source[start..start + length])
  {
    ghost var s := source[start..start + length];
    assert forall k :: 0 <= k < length ==> s[k] == source[start + k];
    var lead := source[start];
    var p := start + length;
    if length > 4 {
      return false;
    }
    if length >= 4 {
      p := p - 1;
      if source[p] < 0x80 || source[p] > 0xBF {
        return false;
      }
    }
    if length >= 3 {
      p := p - 1;
      if source[p] < 0x80 || source[p] > 0xBF {
        return false;
      }
    }
    if length >= 2 {
      p := p - 1;
      var a := source[p];
      if a > 0xBF {
        return false;
      }
      if lead == 0xE0 {
        if a < 0xA0 { return false; }
      } else if lead == 0xED {
        if a > 0x9F { return false; }
      } else if lead == 0xF0 {
        if a < 0x90 { return false; }
      } else if lead == 0xF4 {
        if a > 0x8F { return false; }
      } else {
        if a < 0x80 { return false; }
      }
    }
    if lead >= 0x80 && lead < 0xC2 {
      return false;
    }
    if lead > 0xF4 {
      return false;
    }
    assert length == 1 || length == 2 || length == 3 || length == 4;
    return true;
  }

  method IsLegalUTF8Sequence(source: array<Utf8>, start: nat, sourceEnd: nat) returns (legal: bool)
    requires start < sourceEnd <= source.Length
    ensures legal <==> UTF8toUTF32().Front(source[start..sourceEnd]).Emit?
  {
    var length := TrailingBytes(source[start]) + 1;
    if start + length > sourceEnd {
      return false;
    }
    assert source[start..sourceEnd][..length] == source[start..start + length];
    legal := IsLegalUTF8(source, start, length);
  }

  // ---------------------------------------------------------------- what a converter has done

  /** One call: the loop, the source it is given, the target as it was, and the part of the target it may fill. */
  datatype Job<!S, !T> = Job(c: Converter<S, T>, src: seq<S>, before: seq<T>, start: nat, end: nat)

  /** The target holds what the run writes, between the start and the returned cursor, and is otherwise as before. */
  ghost predicate Converted<S, T>(job: Job<S, T>, after: seq<T>, result: ConversionResult, used: int, next: int) {
    job.start <= job.end <= |job.before| &&
    var o := Run(job.c, job.src, job.end - job.start);
    && result == o.Result() && used == o.used && next == job.start + |job.c.Written(o.codes)| <= job.end
    && after == job.before[..job.start] + job.c.Written(o.codes) + job.before[next..]
  }

  /** The loop has done `done` of the run and stands in front of the rest of the source. */
  ghost predicate RunSoFar<S, T>(c: Converter<S, T>, src: seq<S>, room: int, done: Outcome, left: int) {
    && done.used <= |src| && done.stop == ConversionOK
    && left == room - |c.Written(done.codes)| >= 0
    && Run(c, src, room) == done.Then(Run(c, src[done.used..], left))
  }

  ghost predicate TargetSoFar<T>(before: seq<T>, start: nat, now: seq<T>, written: seq<T>) {
    start + |written| <= |before| && now == before[..start] + written + before[start + |written|..]
  }

  /** What holds each time round: part of the run is done, and its output is in the target up to `next`. */
  ghost predicate InLoop<S, T>(job: Job<S, T>, now: seq<T>, done: Outcome, next: nat) {
    && job.start <= next <= job.end <= |job.before|
    && RunSoFar(job.c, job.src, job.end - job.start, done, job.end - next)
    && TargetSoFar(job.before, job.start, now, job.c.Written(done.codes))
  }

  lemma NothingThen(o: Outcome)
    ensures NOTHING_DONE.Then(o) == o
  {
    assert [] + o.codes == o.codes;
  }

  lemma Begins<S, T>(job: Job<S, T>)
    requires job.start <= job.end <= |job.before|
    ensures InLoop(job, job.before, NOTHING_DONE, job.start)
  {
    hide Run;
    assert RunSoFar(job.c, job.src, job.end - job.start, NOTHING_DONE, job.end - job.start) by {
      assert job.src[0..] == job.src;
      NothingThen(Run(job.c, job.src, job.end - job.start));
    }
    assert TargetSoFar(job.before, job.start, job.before, []);
  }

  lemma RunAdvances<S, T>(c: Converter<S, T>, src: seq<S>, room: nat, done: Outcome, left: nat, n: nat,
                          codes: seq<CodePoint>, bad: bool)
    requires RunSoFar(c, src, room, done, left)
    requires done.used < |src| && c.Front(src[done.used..]) == Emit(n, codes, bad)
    requires |c.Written(codes)| <= left && !(c.eager && left == 0)
    ensures RunSoFar(c, src, room, done.Then(Outcome(n, codes, bad, ConversionOK)), left - |c.Written(codes)|)
  {
    hide Run, EncodeAll;
    var rest := src[done.used..];
    RunStep(c, rest, left, n, codes, bad);
    DropDrop(src, done.used, n);
    ThenAssociates(done, Outcome(n, codes, bad, ConversionOK), Run(c, rest[n..], left - |c.Written(codes)|));
    EncodeAllConcat(c.encode, done.codes, codes);
  }

  lemma TargetAdvances<T>(before: seq<T>, start: nat, now: seq<T>, a: seq<T>, b: seq<T>, later: seq<T>)
    requires TargetSoFar(before, start, now, a) && start + |a| + |b| <= |before|
    requires later == now[..start + |a|] + b + now[start + |a| + |b|..]
    ensures TargetSoFar(before, start, later, a + b)
  {
  }

  /** The next unit has room, and it has been written. */
  ghost predicate Wrote<S, T>(c: Converter<S, T>, rest: seq<S>, unit: Unit, end: nat, now: seq<T>, at: nat,
                              later: seq<T>, next: nat)
  {
    && rest != [] && c.Front(rest) == unit && unit.Emit?
    && !(c.eager && at == end)
    && next == at + |c.Written(unit.codes)| && next <= end && next <= |now|
    && later == now[..at] + c.Written(unit.codes) + now[next..]
  }

  ghost function After(done: Outcome, unit: Unit): Outcome
    requires unit.Emit?
  {
    done.Then(Outcome(unit.used, unit.codes, unit.bad, ConversionOK))
  }

  /** Writing one unit's code points keeps the loop going. */
  lemma Advances<S, T>(job: Job<S, T>, rest: seq<S>, unit: Unit, done: Outcome, now: seq<T>, at: nat, later: seq<T>,
                       next: nat)
    requires InLoop(job, now, done, at) && rest == job.src[done.used..]
    requires Wrote(job.c, rest, unit, job.end, now, at, later, next)
    ensures InLoop(job, later, After(done, unit), next)
  {
    hide Run, EncodeAll;
    var left := job.end - at;
    assert RunSoFar(job.c, job.src, job.end - job.start, After(done, unit), left - |job.c.Written(unit.codes)|) by {
      RunAdvances(job.c, job.src, job.end - job.start, done, left, unit.used, unit.codes, unit.bad);
    }
    assert TargetSoFar(job.before, job.start, later, job.c.Written(After(done, unit).codes)) by {
      EncodeAllConcat(job.c.encode, done.codes, unit.codes);
      TargetAdvances(job.before, job.start, now, job.c.Written(done.codes), job.c.Written(unit.codes), later);
    }
  }

  /** The loop leaves where its run stops. */
  lemma Stops<S, T>(job: Job<S, T>, rest: seq<S>, done: Outcome, now: seq<T>, at: nat, why: ConversionResult)
    requires InLoop(job, now, done, at) && rest == job.src[done.used..]
    requires Run(job.c, rest, job.end - at) == NOTHING_DONE.(stop := why)
    ensures Converted(job, now, done.(stop := why).Result(), done.used, at)
  {
    assert done.codes + [] == done.codes;
  }

  /**
    One turn in front of `rest` with room up to `end`. Either it goes on, past `unit` and with its output
    written, or it leaves everything alone and the run ends here for the reason given.
   */
  ghost predicate Turned<S, T>(c: Converter<S, T>, rest: seq<S>, end: nat, go: bool, unit: Unit, used: int,
                               now: seq<T>, at: nat, later: seq<T>, next: nat, result: ConversionResult,
                               result': ConversionResult)
  {
    rest != [] && at <= end <= |now| &&
    if go then
      && Wrote(c, rest, unit, end, now, at, later, next)
      && used == unit.used && result' == if unit.bad then SourceIllegal else result
    else
      used == 0 && later == now && next == at && result' != ConversionOK
          && Run(c, rest, end - at) == NOTHING_DONE.(stop := result')
  }

  /** So a turn either keeps the loop going or leaves it with the whole run done. */
  lemma TurnKeeps<S, T>(job: Job<S, T>, rest: seq<S>, done: Outcome, go: bool, unit: Unit, used: int, now: seq<T>,
                        at: nat, later: seq<T>, next: nat, result: ConversionResult, result': ConversionResult)
    requires InLoop(job, now, done, at) && result == done.Result() && rest == job.src[done.used..]
    requires Turned(job.c, rest, job.end, go, unit, used, now, at, later, next, result, result')
    ensures go ==> unit.Emit? && InLoop(job, later, After(done, unit), next) && result' == After(done, unit).Result()
    ensures go ==> 0 < used <= |rest| && After(done, unit).used == done.used + used
    ensures !go ==> used == 0 && Converted(job, later, result', done.used, next)
  {
    if go {
      Advances(job, rest, unit, done, now, at, later, next);
    } else {
      Stops(job, rest, done, now, at, result');
    }
  }

  // ---------------------------------------------------------------- reading and writing one character

  /** The fall-through cases one after the other, over the bytes before the last. */
  ghost function GatherAll(s: seq<Utf8>): Utf32 {
    if s == [] then 0 else Gather(GatherAll(s[..|s| - 1]), s[|s| - 1])
  }

  lemma GatherLonger(s: seq<Utf8>, b: Utf8)
    ensures GatherAll(s + [b]) == Gather(GatherAll(s), b)
  {
    assert (s + [b])[..|s|] == s;
  }

  lemma Gathered1(a: Utf8)
    ensures GatherAll([a]) == Gather(0, a)
  {
    GatherLonger([], a);
    assert [] + [a] == [a];
  }

  lemma Gathered2(a: Utf8, b: Utf8)
    ensures GatherAll([a, b]) == Gather(Gather(0, a), b)
  {
    Gathered1(a);
    GatherLonger([a], b);
    assert [a] + [b] == [a, b];
  }

  lemma Gathered3(a: Utf8, b: Utf8, c: Utf8)
    ensures GatherAll([a, b, c]) == Gather(Gather(Gather(0, a), b), c)
  {
    Gathered2(a, b);
    GatherLonger([a, b], c);
    assert [a, b] + [c] == [a, b, c];
  }

  lemma GatheredCode(s: seq<Utf8>)
    requires 1 <= |s| <= 4
    ensures Finish(GatherAll(s[..|s| - 1]), s[|s| - 1], OffsetFromUtf8(|s| - 1)) == CodeOf8(s)
  {
    if |s| == 2 {
      Gathered1(s[0]);
      assert s[..1] == [s[0]];
    } else if |s| == 3 {
      Gathered2(s[0], s[1]);
      assert s[..2] == [s[0], s[1]];
    } else if |s| == 4 {
      Gathered3(s[0], s[1], s[2]);
      assert s[..3] == [s[0], s[1], s[2]];
    }
  }

  /** One fall-through read: takes the byte at the source cursor into the sum and makes room for the next. */
  method TakeByte(source: array<Utf8>, ghost start: nat, at: nat, ch: Utf32) returns (at': nat, ch': Utf32)
    requires start <= at < source.Length && ch == GatherAll(source[start..at])
    ensures at' == at + 1 && ch' == GatherAll(source[start..at'])
  {
    at', ch' := at + 1, Gather(ch, source[at]);
    GatherLonger(source[start..at], source[at]);
    assert source[start..at'] == source[start..at] + [source[at]];
  }

  /** The fall-through reads: accumulate the bytes of a legal sequence, then subtract the magic value. */
  method ReadUTF8(source: array<Utf8>, start: nat, extra: nat) returns (ch: Utf32, next: nat)
    requires extra <= 3 && start + extra < source.Length
    ensures next == start + extra + 1
    ensures ch == CodeOf8(source[start..next])
  {
    ch, next := 0, start;
    if extra >= 3 {
      next, ch := TakeByte(source, start, next, ch);
    }
    if extra >= 2 {
      next, ch := TakeByte(source, start, next, ch);
    }
    if extra >= 1 {
      next, ch := TakeByte(source, start, next, ch);
    }
    ghost var s := source[start..next + 1];
    assert s[..extra] == source[start..next];
    GatheredCode(s);
    ch, next := Finish(ch, source[next], OffsetFromUtf8(extra)), next + 1;
  }

  function ShiftDown(ch: Utf32): (r: Utf32)
    ensures r <= ch
  {
    ch >> 6
  }

  /** One fall-through write: puts the low six bits behind the target cursor, as a trailing byte, and drops them. */
  method PutTail(target: array<Utf8>, t: nat, ch: Utf32) returns (t': nat, ch': Utf32)
    requires 0 < t <= target.Length
    modifies target
    ensures t' == t - 1 && ch' == ShiftDown(ch)
    ensures target[..] == old(target[..])[t - 1 := Tail(ch)]
  {
    t', ch' := t - 1, ShiftDown(ch);
    target[t'] := ((ch | 0x80) & 0xBF) as Utf8;
  }

  function FirstByteMark(bytesToWrite: nat): Utf32
    requires bytesToWrite <= 6
  {
    match bytesToWrite
    case 0 => 0x00
    case 1 => 0x00
    case 2 => 0xC0
    case 3 => 0xE0
    case 4 => 0xF0
    case 5 => 0xF8
    case _ => 0xFC
  }

  /** The first byte of a sequence: what is left of the code point under the mark for its length, cut to eight bits. */
  function MarkFirst(ch: Utf32, bytesToWrite: nat): Utf8
    requires bytesToWrite <= 6
  {
    ((ch | FirstByteMark(bytesToWrite)) & 0xFF) as Utf8
  }

  lemma Shifted1(code: CodePoint)
    requires code < 0x80
    ensures Encode8(code) == [MarkFirst(code, 1)]
  {
  }

  lemma Shifted2(code: CodePoint)
    requires 0x80 <= code < 0x800
    ensures Encode8(code) == [MarkFirst(ShiftDown(code), 2), Tail(code)]
  {
  }

  lemma Shifted3(code: CodePoint)
    requires 0x800 <= code < 0x10000
    ensures Encode8(code) == [MarkFirst(ShiftDown(ShiftDown(code)), 3), Tail(ShiftDown(code)), Tail(code)]
  {
  }

  lemma Shifted4(code: CodePoint)
    requires 0x10000 <= code
    ensures Encode8(code) == [MarkFirst(ShiftDown(ShiftDown(ShiftDown(code))), 4), Tail(ShiftDown(ShiftDown(code))),
                              Tail(ShiftDown(code)), Tail(code)]
  {
  }

  lemma Shifted(code: CodePoint)
    ensures var s, once := Encode8(code), ShiftDown(code);
      var twice := ShiftDown(once);
      && (|s| == 1 ==> s == [MarkFirst(code, 1)])
      && (|s| == 2 ==> s == [MarkFirst(once, 2), Tail(code)])
      && (|s| == 3 ==> s == [MarkFirst(twice, 3), Tail(once), Tail(code)])
      && (|s| == 4 ==> s == [MarkFirst(ShiftDown(twice), 4), Tail(twice), Tail(once), Tail(code)])
  {
    if code < 0x80 {
      Shifted1(code);
    } else if code < 0x800 {
      Shifted2(code);
    } else if code < 0x10000 {
      Shifted3(code);
    } else {
      Shifted4(code);
    }
  }

  /** The fall-through writes, from the last byte to the first. */
  method WriteUTF8(target: array<Utf8>, start: nat, code: CodePoint, bytesToWrite: nat)
    requires bytesToWrite == |Encode8(code)| && start + bytesToWrite <= target.Length
    modifies target
    ensures target[..] == old(target[..start]) + Encode8(code) + old(target[start + bytesToWrite..])
  {
    hide MarkFirst, ShiftDown, Tail, Encode8;
    Shifted(code);
    var ch: Utf32, t := code, start + bytesToWrite;
    if bytesToWrite >= 4 {
      t, ch := PutTail(target, t, ch);
    }
    if bytesToWrite >= 3 {
      t, ch := PutTail(target, t, ch);
    }
    if bytesToWrite >= 2 {
      t, ch := PutTail(target, t, ch);
    }
    t := t - 1;
    target[t] := MarkFirst(ch, bytesToWrite);
  }

  lemma SurrogateHalves(ch: CodePoint)
    requires ch > 0xFFFF
    ensures ((ch - 0x10000) >> 10) + 0xD800 <= 0xFFFF && (((ch - 0x10000) >> 10) + 0xD800) as Utf16 == HighOf(ch)
    ensures ((ch - 0x10000) & 0x3FF) + 0xDC00 <= 0xFFFF && (((ch - 0x10000) & 0x3FF) + 0xDC00) as Utf16 == LowOf(ch)
  {
  }

  // ---------------------------------------------------------------- the converters

  /** The part of a turn that the two UTF-8 decoders share: from the front of the source to a code point. */
  method TakeUTF8(source: array<Utf8>, start: nat, sourceEnd: nat)
    returns (status: ConversionResult, ch: Utf32, next: nat)
    requires start < sourceEnd <= source.Length
    ensures status == ConversionOK ==>
      start < next <= sourceEnd && IsScalar(ch) && Next8(source[start..sourceEnd]) == Emit(next - start, [ch], false)
    ensures status != ConversionOK ==> next == start && Next8(source[start..sourceEnd]) == Fault(status)
  {
    ch, next := 0, start;
    var extra := TrailingBytes(source[start]);
    if start + extra >= sourceEnd {
      return SourceExhausted, ch, next;
    }
    assert source[start..sourceEnd][..extra + 1] == source[start..start + extra + 1];
    var legal := IsLegalUTF8(source, start, extra + 1);
    if !legal {
      return SourceIllegal, ch, next;
    }
    ch, next := ReadUTF8(source, start, extra);
    AcceptedDecodes(source[start..next]);
    status := ConversionOK;
  }

  /** The writing part of the two converters to UTF-16: one unit, or a surrogate pair if there is room for two. */
  method PutUTF16(target: array<Utf16>, at: nat, targetEnd: nat, ch: CodePoint) returns (fits: bool, next: nat)
    requires at < targetEnd <= target.Length
    modifies target
    ensures fits <==> at + |Encode16(ch)| <= targetEnd
    ensures fits ==> next == at + |Encode16(ch)|
    ensures fits ==> target[..] == old(target[..at]) + Encode16(ch) + old(target[at + |Encode16(ch)|..])
    ensures !fits ==> next == at && target[..] == old(target[..])
  {
    next := at;
    if ch <= 0xFFFF {
      target[next] := ch as Utf16;
      next := next + 1;
    } else {
      if next + 1 >= targetEnd {
        return false, next;
      }
      SurrogateHalves(ch);
      var rest: Utf32 := ch - 0x10000;
      target[next] := ((rest >> 10) + 0xD800) as Utf16;
      next := next + 1;
      target[next] := ((rest & 0x3FF) + 0xDC00) as Utf16;
      next := next + 1;
    }
    fits := true;
  }

  method Turn8to32(source: array<Utf8>, sourceAt: nat, sourceEnd: nat, target: array<Utf32>, targetAt: nat,
                   targetEnd: nat, flags: ConversionFlags, result: ConversionResult)
    returns (go: bool, result': ConversionResult, sourceNext: nat, targetNext: nat, ghost unit: Unit)
    requires sourceAt < sourceEnd <= source.Length && targetAt <= targetEnd <= target.Length
    modifies target
    ensures Turned(UTF8toUTF32(), source[sourceAt..sourceEnd], targetEnd, go, unit, sourceNext - sourceAt,
                   old(target[..]), targetAt, target[..], targetNext, result, result')
  {
    hide Run;
    RunEnds(UTF8toUTF32(), source[sourceAt..sourceEnd], targetEnd - targetAt);
    go, targetNext, unit := false, targetAt, Next8(source[sourceAt..sourceEnd]);
    var ch: Utf32;
    result', ch, sourceNext := TakeUTF8(source, sourceAt, sourceEnd);
    if result' != ConversionOK {
      return;
    }
    EncodeAllOne(Encode32, ch);
    if targetNext >= targetEnd {
      sourceNext, result' := sourceAt, TargetExhausted;
      return;
    }
    if ch <= 0x10FFFF {
      if IsSurrogate(ch) {
        assert false;
      } else {
        target[targetNext] := ch;
        targetNext := targetNext + 1;
      }
    } else {
      assert false;
    }
    go, result' := true, result;
  }

  method ConvertUTF8toUTF32(source: array<Utf8>, sourceStart: nat, sourceEnd: nat, target: array<Utf32>,
                            targetStart: nat, targetEnd: nat, flags: ConversionFlags)
    returns (result: ConversionResult, sourceNext: nat, targetNext: nat)
    requires sourceStart <= sourceEnd <= source.Length && targetStart <= targetEnd <= target.Length
    modifies target
    ensures Converted(Job(UTF8toUTF32(), source[sourceStart..sourceEnd], old(target[..]), targetStart, targetEnd),
                      target[..], result, sourceNext - sourceStart, targetNext)
  {
    hide Run;
    ghost var job := Job(UTF8toUTF32(), source[sourceStart..sourceEnd], target[..], targetStart, targetEnd);
    ghost var done := NOTHING_DONE;
    result, sourceNext, targetNext := ConversionOK, sourceStart, targetStart;
    Begins(job);
    while sourceNext < sourceEnd
      invariant sourceNext == sourceStart + done.used <= sourceEnd && result == done.Result()
      invariant InLoop(job, target[..], done, targetNext)
      decreases sourceEnd - sourceNext
    {
      ghost var now, at, from, was := target[..], targetNext, sourceNext, result;
      assert job.src[done.used..] == source[sourceNext..sourceEnd];
      var go; ghost var unit;
      go, result, sourceNext, targetNext, unit :=
        Turn8to32(source, sourceNext, sourceEnd, target, targetNext, targetEnd, flags, result);
      TurnKeeps(job, job.src[done.used..], done, go, unit, sourceNext - from, now, at, target[..], targetNext, was,
                result);
      if !go {
        return;
      }
      done := After(done, unit);
    }
    assert job.src[done.used..] == [];
    RunOfNothing(job.c, targetEnd - targetNext);
    Stops(job, [], done, target[..], targetNext, ConversionOK);
  }

  method Turn8to16(source: array<Utf8>, sourceAt: nat, sourceEnd: nat, target: array<Utf16>, targetAt: nat,
                   targetEnd: nat, flags: ConversionFlags, result: ConversionResult)
    returns (go: bool, result': ConversionResult, sourceNext: nat, targetNext: nat, ghost unit: Unit)
    requires sourceAt < sourceEnd <= source.Length && targetAt <= targetEnd <= target.Length
    modifies target
    ensures Turned(UTF8toUTF16(), source[sourceAt..sourceEnd], targetEnd, go, unit, sourceNext - sourceAt,
                   old(target[..]), targetAt, target[..], targetNext, result, result')
  {
    hide Run;
    RunEnds(UTF8toUTF16(), source[sourceAt..sourceEnd], targetEnd - targetAt);
    go, targetNext, unit := false, targetAt, Next8(source[sourceAt..sourceEnd]);
    var ch: Utf32;
    result', ch, sourceNext := TakeUTF8(source, sourceAt, sourceEnd);
    if result' != ConversionOK {
      return;
    }
    EncodeAllOne(Encode16, ch);
    if targetNext >= targetEnd {
      sourceNext, result' := sourceAt, TargetExhausted;
      return;
    }
    if IsSurrogate(ch) || ch > 0x10FFFF {
      assert false;
    }
    go, targetNext := PutUTF16(target, targetNext, targetEnd, ch);
    if !go {
      sourceNext, result' := sourceAt, TargetExhausted;
      return;
    }
    result' := result;
  }

  method ConvertUTF8toUTF16(source: array<Utf8>, sourceStart: nat, sourceEnd: nat, target: array<Utf16>,
                            targetStart: nat, targetEnd: nat, flags: ConversionFlags)
    returns (result: ConversionResult, sourceNext: nat, targetNext: nat)
    requires sourceStart <= sourceEnd <= source.Length && targetStart <= targetEnd <= target.Length
    modifies target
    ensures Converted(Job(UTF8toUTF16(), source[sourceStart..sourceEnd], old(target[..]), targetStart, targetEnd),
                      target[..], result, sourceNext - sourceStart, targetNext)
  {
    hide Run;
    ghost var job := Job(UTF8toUTF16(), source[sourceStart..sourceEnd], target[..], targetStart, targetEnd);
    ghost var done := NOTHING_DONE;
    result, sourceNext, targetNext := ConversionOK, sourceStart, targetStart;
    Begins(job);
    while sourceNext < sourceEnd
      invariant sourceNext == sourceStart + done.used <= sourceEnd && result == done.Result()
      invariant InLoop(job, target[..], done, targetNext)
      decreases sourceEnd - sourceNext
    {
      ghost var now, at, from, was := target[..], targetNext, sourceNext, result;
      assert job.src[done.used..] == source[sourceNext..sourceEnd];
      var go; ghost var unit;
      go, result, sourceNext, targetNext, unit :=
        Turn8to16(source, sourceNext, sourceEnd, target, targetNext, targetEnd, flags, result);
      TurnKeeps(job, job.src[done.used..], done, go, unit, sourceNext - from, now, at, target[..], targetNext, was,
                result);
      if !go {
        return;
      }
      done := After(done, unit);
    }
    assert job.src[done.used..] == [];
    RunOfNothing(job.c, targetEnd - targetNext);
    Stops(job, [], done, target[..], targetNext, ConversionOK);
  }

  /** The part of a turn that the two UTF-16 decoders share. */
  method TakeUTF16(source: array<Utf16>, start: nat, sourceEnd: nat, flags: ConversionFlags)
    returns (status: ConversionResult, ch: Utf32, next: nat)
    requires start < sourceEnd <= source.Length
    ensures status == ConversionOK ==>
      start < next <= sourceEnd && ch <= 0x10FFFF
          && Next16(source[start..sourceEnd], flags) == Emit(next - start, [ch], false)
    ensures status != ConversionOK ==> next == start && Next16(source[start..sourceEnd], flags) == Fault(status)
  {
    hide PairCode, Widen;
    var unit := source[start];
    status, ch, next := ConversionOK, Widen(unit), start + 1;
    if unit >= 0xD800 && unit <= 0xDBFF {
      if next < sourceEnd {
        var unit2 := source[next];
        if unit2 >= 0xDC00 && unit2 <= 0xDFFF {
          ch := PairCode(unit, unit2);
          next := next + 1;
        } else if flags == StrictConversion {
          next := next - 1;
          status := SourceIllegal;
        }
      } else {
        next := next - 1;
        status := SourceExhausted;
      }
    } else if flags == StrictConversion {
      if unit >= 0xDC00 && unit <= 0xDFFF {
        next := next - 1;
        status := SourceIllegal;
      }
    }
  }

  method Turn16to32(source: array<Utf16>, sourceAt: nat, sourceEnd: nat, target: array<Utf32>, targetAt: nat,
                    targetEnd: nat, flags: ConversionFlags, result: ConversionResult)
    returns (go: bool, result': ConversionResult, sourceNext: nat, targetNext: nat, ghost unit: Unit)
    requires sourceAt < sourceEnd <= source.Length && targetAt <= targetEnd <= target.Length
    modifies target
    ensures Turned(UTF16toUTF32(flags), source[sourceAt..sourceEnd], targetEnd, go, unit, sourceNext - sourceAt,
                   old(target[..]), targetAt, target[..], targetNext, result, result')
  {
    hide Run;
    RunEnds(UTF16toUTF32(flags), source[sourceAt..sourceEnd], targetEnd - targetAt);
    go, targetNext, unit := false, targetAt, Next16(source[sourceAt..sourceEnd], flags);
    var ch: Utf32;
    result', ch, sourceNext := TakeUTF16(source, sourceAt, sourceEnd, flags);
    if result' != ConversionOK {
      return;
    }
    EncodeAllOne(Encode32, ch);
    if targetNext >= targetEnd {
      sourceNext, result' := sourceAt, TargetExhausted;
      return;
    }
    target[targetNext] := ch;
    targetNext := targetNext + 1;
    go, result' := true, result;
  }

  method ConvertUTF16toUTF32(source: array<Utf16>, sourceStart: nat, sourceEnd: nat, target: array<Utf32>,
                             targetStart: nat, targetEnd: nat, flags: ConversionFlags)
    returns (result: ConversionResult, sourceNext: nat, targetNext: nat)
    requires sourceStart <= sourceEnd <= source.Length && targetStart <= targetEnd <= target.Length
    modifies target
    ensures Converted(Job(UTF16toUTF32(flags), source[sourceStart..sourceEnd], old(target[..]), targetStart, targetEnd),
                      target[..], result, sourceNext - sourceStart, targetNext)
  {
    hide Run;
    ghost var job := Job(UTF16toUTF32(flags), source[sourceStart..sourceEnd], target[..], targetStart, targetEnd);
    ghost var done := NOTHING_DONE;
    result, sourceNext, targetNext := ConversionOK, sourceStart, targetStart;
    Begins(job);
    while sourceNext < sourceEnd
      invariant sourceNext == sourceStart + done.used <= sourceEnd && result == done.Result()
      invariant InLoop(job, target[..], done, targetNext)
      decreases sourceEnd - sourceNext
    {
      ghost var now, at, from, was := target[..], targetNext, sourceNext, result;
      assert job.src[done.used..] == source[sourceNext..sourceEnd];
      var go; ghost var unit;
      go, result, sourceNext, targetNext, unit :=
        Turn16to32(source, sourceNext, sourceEnd, target, targetNext, targetEnd, flags, result);
      TurnKeeps(job, job.src[done.used..], done, go, unit, sourceNext - from, now, at, target[..], targetNext, was,
                result);
      if !go {
        return;
      }
      done := After(done, unit);
    }
    assert job.src[done.used..] == [];
    RunOfNothing(job.c, targetEnd - targetNext);
    Stops(job, [], done, target[..], targetNext, ConversionOK);
  }

  function BytesToWrite(ch: Utf32): (n: nat)
    ensures ch <= 0x10FFFF ==> n == |Encode8(ch)|
    ensures ch > 0x10FFFF ==> n == |Encode8(REPLACEMENT_CHAR)|
  {
    if ch < 0x80 then 1 else if ch < 0x800 then 2 else if ch < 0x10000 then 3 else if ch < 0x110000 then 4 else 3
  }

  method Turn16to8(source: array<Utf16>, sourceAt: nat, sourceEnd: nat, target: array<Utf8>, targetAt: nat,
                   targetEnd: nat, flags: ConversionFlags, result: ConversionResult)
    returns (go: bool, result': ConversionResult, sourceNext: nat, targetNext: nat, ghost unit: Unit)
    requires sourceAt < sourceEnd <= source.Length && targetAt <= targetEnd <= target.Length
    modifies target
    ensures Turned(UTF16toUTF8(flags), source[sourceAt..sourceEnd], targetEnd, go, unit, sourceNext - sourceAt,
                   old(target[..]), targetAt, target[..], targetNext, result, result')
  {
    hide Run;
    RunEnds(UTF16toUTF8(flags), source[sourceAt..sourceEnd], targetEnd - targetAt);
    go, targetNext, unit := false, targetAt, Next16(source[sourceAt..sourceEnd], flags);
    var ch: Utf32;
    result', ch, sourceNext := TakeUTF16(source, sourceAt, sourceEnd, flags);
    if result' != ConversionOK {
      return;
    }
    EncodeAllOne(Encode8, ch);
    var bytesToWrite := BytesToWrite(ch);
    if targetNext + bytesToWrite > targetEnd {
      sourceNext, result' := sourceAt, TargetExhausted;
      return;
    }
    WriteUTF8(target, targetNext, ch, bytesToWrite);
    targetNext := targetNext + bytesToWrite;
    go, result' := true, result;
  }

  method ConvertUTF16toUTF8(source: array<Utf16>, sourceStart: nat, sourceEnd: nat, target: array<Utf8>,
                            targetStart: nat, targetEnd: nat, flags: ConversionFlags)
    returns (result: ConversionResult, sourceNext: nat, targetNext: nat)
    requires sourceStart <= sourceEnd <= source.Length && targetStart <= targetEnd <= target.Length
    modifies target
    ensures Converted(Job(UTF16toUTF8(flags), source[sourceStart..sourceEnd], old(target[..]), targetStart, targetEnd),
                      target[..], result, sourceNext - sourceStart, targetNext)
  {
    hide Run;
    ghost var job := Job(UTF16toUTF8(flags), source[sourceStart..sourceEnd], target[..], targetStart, targetEnd);
    ghost var done := NOTHING_DONE;
    result, sourceNext, targetNext := ConversionOK, sourceStart, targetStart;
    Begins(job);
    while sourceNext < sourceEnd
      invariant sourceNext == sourceStart + done.used <= sourceEnd && result == done.Result()
      invariant InLoop(job, target[..], done, targetNext)
      decreases sourceEnd - sourceNext
    {
      ghost var now, at, from, was := target[..], targetNext, sourceNext, result;
      assert job.src[done.used..] == source[sourceNext..sourceEnd];
      var go; ghost var unit;
      go, result, sourceNext, targetNext, unit :=
        Turn16to8(source, sourceNext, sourceEnd, target, targetNext, targetEnd, flags, result);
      TurnKeeps(job, job.src[done.used..], done, go, unit, sourceNext - from, now, at, target[..], targetNext, was,
                result);
      if !go {
        return;
      }
      done := After(done, unit);
    }
    assert job.src[done.used..] == [];
    RunOfNothing(job.c, targetEnd - targetNext);
    Stops(job, [], done, target[..], targetNext, ConversionOK);
  }

  /** The tests of ConvertUTF32toUTF8 on one value; no bytes to write stands for leaving the loop. */
  method Take32(value: Utf32, flags: ConversionFlags, result: ConversionResult)
    returns (result': ConversionResult, ch: Utf32, bytesToWrite: nat)
    ensures bytesToWrite == 0 <==> flags == StrictConversion && IsSurrogate(value)
    ensures bytesToWrite == 0 ==> result' == SourceIllegal
    ensures bytesToWrite != 0 ==> ch == Replaced(value) && bytesToWrite == |Encode8(Replaced(value))|
    ensures bytesToWrite != 0 ==> result' == if value > 0x10FFFF then SourceIllegal else result
  {
    result', ch := result, value;
    if flags == StrictConversion {
      if value >= 0xD800 && value <= 0xDFFF {
        return SourceIllegal, ch, 0;
      }
    }
    bytesToWrite := BytesToWrite(ch);
    if ch > 0x10FFFF {
      ch, result' := REPLACEMENT_CHAR, SourceIllegal;
    }
  }

  method Turn32to8(source: array<Utf32>, sourceAt: nat, sourceEnd: nat, target: array<Utf8>, targetAt: nat,
                   targetEnd: nat, flags: ConversionFlags, result: ConversionResult)
    returns (go: bool, result': ConversionResult, sourceNext: nat, targetNext: nat, ghost unit: Unit)
    requires sourceAt < sourceEnd <= source.Length && targetAt <= targetEnd <= target.Length
    modifies target
    ensures Turned(UTF32toUTF8(flags), source[sourceAt..sourceEnd], targetEnd, go, unit, sourceNext - sourceAt,
                   old(target[..]), targetAt, target[..], targetNext, result, result')
  {
    hide Run, Encode8, Replaced;
    RunEnds(UTF32toUTF8(flags), source[sourceAt..sourceEnd], targetEnd - targetAt);
    go, targetNext, unit := false, targetAt, Next32For8(source[sourceAt..sourceEnd], flags);
    var ch: Utf32, bytesToWrite;
    result', ch, bytesToWrite := Take32(source[sourceAt], flags, result);
    sourceNext := sourceAt + 1;
    if bytesToWrite == 0 {
      sourceNext := sourceAt;
      return;
    }
    EncodeAllOne(Encode8, ch);
    if targetNext + bytesToWrite > targetEnd {
      sourceNext, result' := sourceAt, TargetExhausted;
      return;
    }
    WriteUTF8(target, targetNext, ch, bytesToWrite);
    targetNext := targetNext + bytesToWrite;
    go := true;
  }

  method ConvertUTF32toUTF8(source: array<Utf32>, sourceStart: nat, sourceEnd: nat, target: array<Utf8>,
                            targetStart: nat, targetEnd: nat, flags: ConversionFlags)
    returns (result: ConversionResult, sourceNext: nat, targetNext: nat)
    requires sourceStart <= sourceEnd <= source.Length && targetStart <= targetEnd <= target.Length
    modifies target
    ensures Converted(Job(UTF32toUTF8(flags), source[sourceStart..sourceEnd], old(target[..]), targetStart, targetEnd),
                      target[..], result, sourceNext - sourceStart, targetNext)
  {
    hide Run;
    ghost var job := Job(UTF32toUTF8(flags), source[sourceStart..sourceEnd], target[..], targetStart, targetEnd);
    ghost var done := NOTHING_DONE;
    result, sourceNext, targetNext := ConversionOK, sourceStart, targetStart;
    Begins(job);
    while sourceNext < sourceEnd
      invariant sourceNext == sourceStart + done.used <= sourceEnd && result == done.Result()
      invariant InLoop(job, target[..], done, targetNext)
      decreases sourceEnd - sourceNext
    {
      ghost var now, at, from, was := target[..], targetNext, sourceNext, result;
      assert job.src[done.used..] == source[sourceNext..sourceEnd];
      var go; ghost var unit;
      go, result, sourceNext, targetNext, unit :=
        Turn32to8(source, sourceNext, sourceEnd, target, targetNext, targetEnd, flags, result);
      TurnKeeps(job, job.src[done.used..], done, go, unit, sourceNext - from, now, at, target[..], targetNext, was,
                result);
      if !go {
        return;
      }
      done := After(done, unit);
    }
    assert job.src[done.used..] == [];
    RunOfNothing(job.c, targetEnd - targetNext);
    Stops(job, [], done, target[..], targetNext, ConversionOK);
  }

  /** The tests of ConvertUTF32toUTF16 on one value: leave the loop, pass the value over, or write a code point. */
  method Choose32(value: Utf32, flags: ConversionFlags) returns (unit: Unit)
    ensures unit == Unit32For16(value, flags)
  {
    if value <= 0xFFFF {
      if value >= 0xD800 && value <= 0xDFFF {
        if flags == StrictConversion {
          return Fault(SourceIllegal);
        } else {
          return Emit(1, [REPLACEMENT_CHAR], false);
        }
      } else {
        return Emit(1, [value], false);
      }
    } else if value > 0x10FFFF {
      if flags == StrictConversion {
        return Emit(1, [], true);
      } else {
        return Emit(1, [REPLACEMENT_CHAR], false);
      }
    } else {
      return Emit(1, [value], false);
    }
  }

  lemma UnitShape32(value: Utf32, flags: ConversionFlags)
    ensures var unit := Unit32For16(value, flags);
      (unit.Fault? ==> unit.why == SourceIllegal) && (unit.Emit? ==> unit.used == 1 && |unit.codes| <= 1)
  {
  }

  method Turn32to16(source: array<Utf32>, sourceAt: nat, sourceEnd: nat, target: array<Utf16>, targetAt: nat,
                    targetEnd: nat, flags: ConversionFlags, result: ConversionResult)
    returns (go: bool, result': ConversionResult, sourceNext: nat, targetNext: nat, ghost unit: Unit)
    requires sourceAt < sourceEnd <= source.Length && targetAt <= targetEnd <= target.Length
    modifies target
    ensures Turned(UTF32toUTF16(flags), source[sourceAt..sourceEnd], targetEnd, go, unit, sourceNext - sourceAt,
                   old(target[..]), targetAt, target[..], targetNext, result, result')
  {
    hide Run, Encode16, Unit32For16;
    RunEnds(UTF32toUTF16(flags), source[sourceAt..sourceEnd], targetEnd - targetAt);
    go, targetNext, unit := false, targetAt, Next32For16(source[sourceAt..sourceEnd], flags);
    UnitShape32(source[sourceAt], flags);
    result', sourceNext := result, sourceAt;
    if targetNext >= targetEnd {
      result' := TargetExhausted;
      return;
    }
    var choice := Choose32(source[sourceAt], flags);
    if choice.Fault? {
      result' := SourceIllegal;
      return;
    }
    go, sourceNext := true, sourceAt + 1;
    if choice.bad {
      result' := SourceIllegal;
    }
    if choice.codes == [] {
      return;
    }
    assert choice.codes == [choice.codes[0]];
    EncodeAllOne(Encode16, choice.codes[0]);
    go, targetNext := PutUTF16(target, targetNext, targetEnd, choice.codes[0]);
    if !go {
      sourceNext, result' := sourceAt, TargetExhausted;
    }
  }

  method ConvertUTF32toUTF16(source: array<Utf32>, sourceStart: nat, sourceEnd: nat, target: array<Utf16>,
                             targetStart: nat, targetEnd: nat, flags: ConversionFlags)
    returns (result: ConversionResult, sourceNext: nat, targetNext: nat)
    requires sourceStart <= sourceEnd <= source.Length && targetStart <= targetEnd <= target.Length
    modifies target
    ensures Converted(Job(UTF32toUTF16(flags), source[sourceStart..sourceEnd], old(target[..]), targetStart, targetEnd),
                      target[..], result, sourceNext - sourceStart, targetNext)
  {
    hide Run;
    ghost var job := Job(UTF32toUTF16(flags), source[sourceStart..sourceEnd], target[..], targetStart, targetEnd);
    ghost var done := NOTHING_DONE;
    result, sourceNext, targetNext := ConversionOK, sourceStart, targetStart;
    Begins(job);
    while sourceNext < sourceEnd
      invariant sourceNext == sourceStart + done.used <= sourceEnd && result == done.Result()
      invariant InLoop(job, target[..], done, targetNext)
      decreases sourceEnd - sourceNext
    {
      ghost var now, at, from, was := target[..], targetNext, sourceNext, result;
      assert job.src[done.used..] == source[sourceNext..sourceEnd];
      var go; ghost var unit;
      go, result, sourceNext, targetNext, unit :=
        Turn32to16(source, sourceNext, sourceEnd, target, targetNext, targetEnd, flags, result);
      TurnKeeps(job, job.src[done.used..], done, go, unit, sourceNext - from, now, at, target[..], targetNext, was,
                result);
      if !go {
        return;
      }
      done := After(done, unit);
    }
    assert job.src[done.used..] == [];
    RunOfNothing(job.c, targetEnd - targetNext);
    Stops(job, [], done, target[..], targetNext, ConversionOK);
  }
}
