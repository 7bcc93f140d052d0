/** The walk of cantcoap's `validate()` over the options of a message, compared with the format.

    The walk reserves one octet for every extended field, although a field may need two, and
    keeps fields in 16 bits.  So it may look at octets behind the message, and may go on in the
    middle of an option.  This module says exactly when. */
module CoapPduWalk {
  import opened Wire
  import opened StoredOption
  import opened CoapPdu

  /** What becomes of one option: where the walk stops, or the fields and the size it reads. */
  datatype Step = Stop | Step(delta: nat, length: nat, size: nat)

  /** The space check: one octet for every extended field. */
  predicate RoomForExtensions(s: seq<byte>)
    requires s != []
  {
    s[0] / 16 != 15 && s[0] % 16 != 15 && ExtraBytes(s[0] / 16) + ExtraBytes(s[0] % 16) <= |s| - 1
  }

  /** `getOptionDelta` and `getOptionValueLength` on the octets `u`, when `n` octets of the
      message are left. */
  function StepOn(u: seq<byte>, n: nat): (r: Step)
    requires HeaderFits(u)
    ensures r.Step? ==> 1 <= r.size <= n
  {
    var delta, length := OptionDelta(u), OptionValueLength(u);
    if OptionSize(delta, length) > n then Stop else Step(delta, length, OptionSize(delta, length))
  }

  /** One turn of the loop: `s` is what is left of the message, `behind` what the memory
      behind it holds. */
  function WalkOne(s: seq<byte>, behind: seq<byte>): (r: Step)
    requires s != [] && |behind| >= 2
    ensures r.Step? ==> 1 <= r.size <= |s|
  {
    if RoomForExtensions(s) then StepOn(s + behind, |s|) else Stop
  }

  /** The same step as the format has it. */
  function FormatOne(s: seq<byte>): (r: Step)
    ensures r.Step? ==> 1 <= r.size <= |s|
  {
    var p := ParseOption(s);
    if p.Malformed? then Stop else Step(p.delta, |p.value|, p.size)
  }

  /** A whole walk: the options read, the octets left, and whether it stopped at an error. */
  datatype Walk = Walk(steps: seq<Step>, rest: seq<byte>, stopped: bool)

  function Before(step: Step, w: Walk): Walk {
    w.(steps := [step] + w.steps)
  }

  function WalkAll(s: seq<byte>, behind: seq<byte>): Walk
    requires |behind| >= 2
    decreases |s|
  {
    if EndsOptions(s) then Walk([], s, false)
    else if WalkOne(s, behind).Stop? then Walk([], s, true)
    else Before(WalkOne(s, behind), WalkAll(s[WalkOne(s, behind).size..], behind))
  }

  function FormatAll(s: seq<byte>): Walk
    decreases |s|
  {
    if EndsOptions(s) then Walk([], s, false)
    else if FormatOne(s).Stop? then Walk([], s, true)
    else Before(FormatOne(s), FormatAll(s[FormatOne(s).size..]))
  }

  /** The format's walk is the reference decoder. */
  lemma {:induction false} FormatIsDecode(prev: nat, s: seq<byte>)
    ensures Decode(prev, s).Rejected? <==> FormatAll(s).stopped
    ensures Decode(prev, s).Decoded? ==>
              |Decode(prev, s).opts| == |FormatAll(s).steps| && Decode(prev, s).tail == FormatAll(s).rest
    decreases |s|
  {
    hide ParseOption;
    if !EndsOptions(s) && ParseOption(s).Parsed? {
      OptionBytesOfParse(s);
      FormatIsDecode(prev + ParseOption(s).delta, s[ParseOption(s).size..]);
    }
  }

  // ----- where the walk looks behind the message -----

  /** The header begins inside the message, which is cut off inside a two-octet extension that
      the space check has let through. */
  predicate CutShort(s: seq<byte>) {
    s != [] &&
    var d, l := s[0] / 16, s[0] % 16;
    if |s| == 2 then (d == 14 && l < 13) || (d < 13 && l == 14)
    else if |s| == 3 then (d == 14 && l == 13) || (d == 13 && l == 14) || (d == 14 && l == 14)
    else |s| == 4 && d == 14 && l == 14
  }

  lemma CutShortIff(s: seq<byte>)
    requires s != []
    ensures RoomForExtensions(s) && !HeaderFits(s) <==> CutShort(s)
  {
  }

  /** The octets behind a header that is inside the message do not matter. */
  lemma InsideIgnoresBehind(s: seq<byte>, behind: seq<byte>)
    requires HeaderFits(s)
    ensures HeaderFits(s + behind) && StepOn(s + behind, |s|) == StepOn(s, |s|)
  {
    var u := s + behind;
    assert u[0] == s[0];
    var d, l := ExtensionLength(s[0] / 16), ExtensionLength(s[0] % 16);
    assert u[1..1 + d] == s[1..1 + d] && u[1 + d..1 + d + l] == s[1 + d..1 + d + l];
  }

  /** The option where the walk comes to rest without a look behind the message: its end, a
      marker, an option that stops it, or one that is cut short. */
  function Inside(s: seq<byte>): seq<byte>
    decreases |s|
  {
    if EndsOptions(s) || !RoomForExtensions(s) || !HeaderFits(s) || StepOn(s, |s|).Stop? then s
    else Inside(s[StepOn(s, |s|).size..])
  }

  /** Somewhere on its way the walk calls the accessors on a header that is not inside the
      message. */
  ghost predicate LooksBehind(s: seq<byte>, behind: seq<byte>)
    requires |behind| >= 2
    decreases |s|
  {
    !EndsOptions(s) && RoomForExtensions(s) &&
    (!HeaderFits(s) || (WalkOne(s, behind).Step? && LooksBehind(s[WalkOne(s, behind).size..], behind)))
  }

  /** The walk looks behind the message iff it comes to a two-octet extension that is cut short;
      what it reads before does not depend on the memory there. */
  lemma {:induction false} LooksBehindIff(s: seq<byte>, behind: seq<byte>)
    requires |behind| >= 2
    ensures LooksBehind(s, behind) <==> CutShort(Inside(s))
    decreases |s|
  {
    hide StepOn, HeaderFits, RoomForExtensions, CutShort;
    if EndsOptions(s) {
      MarkerIsNotCut(s);
    } else {
      CutShortIff(s);
      if RoomForExtensions(s) && HeaderFits(s) {
        InsideIgnoresBehind(s, behind);
        if StepOn(s, |s|).Step? {
          LooksBehindIff(s[StepOn(s, |s|).size..], behind);
        }
      }
    }
  }

  lemma MarkerIsNotCut(s: seq<byte>)
    ensures !(EndsOptions(s) && CutShort(s))
  {
  }

  // ----- one step: what the fields must be -----

  /** The field of a header whose octets begin at `at`. */
  function FieldAt(nibble: nat, u: seq<byte>, at: nat): nat
    requires at + ExtensionLength(nibble) <= |u|
  {
    Field(nibble, u[at..at + ExtensionLength(nibble)])
  }

  /** A field in 16 bits. */
  function Cut16(n: nat): nat {
    if n < 65536 then n else n - 65536
  }

  lemma Cut16Is(nibble: nat, u: seq<byte>, at: nat)
    requires nibble <= 14 && at + ExtensionLength(nibble) <= |u|
    ensures FieldAt(nibble, u, at) % 65536 == Cut16(FieldAt(nibble, u, at))
    ensures FieldAt(nibble, u, at) ==
              if nibble < 13 then nibble else if nibble == 13 then u[at] as int + 13
              else u[at] as int * 256 + u[at + 1] as int + 269
    ensures FieldAt(nibble, u, at) < 65536 ==> ExtraBytes(FieldAt(nibble, u, at)) == ExtensionLength(nibble)
    ensures Cut16(FieldAt(nibble, u, at)) + ExtraBytes(Cut16(FieldAt(nibble, u, at))) <=
              FieldAt(nibble, u, at) + ExtensionLength(nibble)
    ensures FieldAt(nibble, u, at) >= 65536 ==>
              ExtraBytes(Cut16(FieldAt(nibble, u, at))) <= ExtensionLength(nibble) &&
              Cut16(FieldAt(nibble, u, at)) < 269
  {
  }

  /** The walk reads an option whose header is inside the message as the format does: the fields
      fit 16 bits, or what they are cut to is too long for the message all the same. */
  predicate FieldsRight(s: seq<byte>)
    requires HeaderFits(s)
  {
    var at := 1 + ExtensionLength(s[0] / 16);
    var delta, length := FieldAt(s[0] / 16, s, 1), FieldAt(s[0] % 16, s, at);
    (delta < 65536 && length < 65536) || OptionSize(Cut16(delta), Cut16(length)) > |s|
  }

  /** The step of the format, from the fields. */
  lemma FormatFields(s: seq<byte>)
    requires HeaderFits(s)
    ensures var d, l := ExtensionLength(s[0] / 16), ExtensionLength(s[0] % 16);
            var delta, length := FieldAt(s[0] / 16, s, 1), FieldAt(s[0] % 16, s, 1 + d);
            FormatOne(s) == if 1 + d + l + length > |s| then Stop else Step(delta, length, 1 + d + l + length)
  {
    hide Field;
  }

  /** The step of the walk. */
  lemma StepFields(u: seq<byte>, n: nat)
    requires HeaderFits(u)
    ensures var delta := Cut16(FieldAt(u[0] / 16, u, 1));
            var length := Cut16(FieldAt(u[0] % 16, u, 1 + ExtensionLength(u[0] / 16)));
            StepOn(u, n) ==
              if OptionSize(delta, length) > n then Stop else Step(delta, length, OptionSize(delta, length))
  {
    hide Field, Cut16, OptionSize;
    Cut16Is(u[0] / 16, u, 1);
    Cut16Is(u[0] % 16, u, 1 + ExtensionLength(u[0] / 16));
  }

  lemma FieldsRightIff(s: seq<byte>)
    requires HeaderFits(s)
    ensures StepOn(s, |s|) == FormatOne(s) <==> FieldsRight(s)
  {
    hide FieldAt, FormatOne, StepOn, Cut16, ExtraBytes;
    FormatFields(s);
    StepFields(s, |s|);
    Cut16Is(s[0] / 16, s, 1);
    Cut16Is(s[0] % 16, s, 1 + ExtensionLength(s[0] / 16));
    Cut16Same(s[0] / 16, s, 1);
    Cut16Same(s[0] % 16, s, 1 + ExtensionLength(s[0] / 16));
  }

  lemma Cut16Same(nibble: nat, u: seq<byte>, at: nat)
    requires at + ExtensionLength(nibble) <= |u|
    ensures FieldAt(nibble, u, at) < 65536 <==> Cut16(FieldAt(nibble, u, at)) == FieldAt(nibble, u, at)
  {
  }

  /** The last octet of a message that is cut short lets the memory behind it decide on a step. */
  predicate MayGoOn(s: seq<byte>)
    requires CutShort(s)
  {
    var d, l, last := s[0] / 16, s[0] % 16, s[|s| - 1];
    if l == 14 then last == 0xFE || (d == 14 && |s| == 3)
    else (last == 0xFE && l <= 1) || (last == 0xFF && l == 0)
  }

  /** What the walk makes of it. */
  lemma CutStep(s: seq<byte>, behind: seq<byte>)
    requires CutShort(s) && |behind| >= 2
    ensures var u := s + behind;
            var at := 1 + ExtensionLength(s[0] / 16);
            HeaderFits(u) && RoomForExtensions(s) && FormatOne(s).Stop? &&
            var delta, length := Cut16(FieldAt(s[0] / 16, u, 1)), Cut16(FieldAt(s[0] % 16, u, at));
            WalkOne(s, behind) ==
              if OptionSize(delta, length) > |s| then Stop else Step(delta, length, OptionSize(delta, length))
  {
    hide Field, Cut16, ExtraBytes;
    CutShortIff(s);
    var u := s + behind;
    assert u[0] == s[0];
    StepFields(u, |s|);
  }

  /** Without it the walk stops, whatever the memory holds. */
  lemma CutStops(s: seq<byte>, behind: seq<byte>)
    requires CutShort(s) && !MayGoOn(s) && |behind| >= 2
    ensures WalkOne(s, behind) == Stop
  {
    hide Field, WalkOne, StepOn;
    CutStep(s, behind);
    var u := s + behind;
    assert forall i :: 0 <= i < |s| ==> u[i] == s[i];
    Cut16Is(s[0] / 16, u, 1);
    Cut16Is(s[0] % 16, u, 1 + ExtensionLength(s[0] / 16));
  }

  /** Memory that lets the walk go on, to the very end of the message where that can be. */
  lemma CutGoesOn(s: seq<byte>) returns (behind: seq<byte>)
    requires CutShort(s) && MayGoOn(s)
    ensures |behind| == 2 && WalkOne(s, behind).Step?
    ensures Undecided(s) ==> WalkOne(s, behind).size == |s|
  {
    hide Field, WalkOne, StepOn;
    var d, l, at := s[0] / 16, s[0] % 16, 1 + ExtensionLength(s[0] / 16);
    if l == 14 {
      var extra := if d < 14 then ExtensionLength(d) else ExtraBytes(Cut16(FieldAt(d, s, 1)));
      var length := |s| - 1 - extra;
      behind := if |s| == 3 && d == 14 then [0xFE, 0xF3 + length] else [0xF3 + length, 0];
    } else {
      behind := [0xF3, 0];
    }
    CutStep(s, behind);
    var u := s + behind;
    assert forall i :: 0 <= i < |s| ==> u[i] == s[i];
    assert u[|s|] == behind[0] && u[|s| + 1] == behind[1];
    Cut16Is(d, u, 1);
    Cut16Is(l, u, at);
    if d < 14 || |s| > 2 { assert u[1..1 + ExtensionLength(d)] == s[1..1 + ExtensionLength(d)]; }
  }

  /** What makes it possible to end there: for a delta that is cut short, only a length of 1. */
  predicate Undecided(s: seq<byte>)
    requires CutShort(s)
  {
    MayGoOn(s) && (s[0] % 16 < 13 ==> s[0] % 16 == 1)
  }

  // ----- whole walks: when they read what the format says -----

  /** The condition on one option that the walk comes to. */
  predicate RightStep(s: seq<byte>)
    requires s != []
  {
    !RoomForExtensions(s) || if HeaderFits(s) then FieldsRight(s) else !(CutShort(s) && MayGoOn(s))
  }

  lemma StepRight(s: seq<byte>, behind: seq<byte>)
    requires s != [] && RightStep(s) && |behind| >= 2
    ensures WalkOne(s, behind) == FormatOne(s)
  {
    CutShortIff(s);
    if RoomForExtensions(s) {
      if HeaderFits(s) {
        InsideIgnoresBehind(s, behind);
        FieldsRightIff(s);
      } else {
        CutStops(s, behind);
        CutStep(s, behind);
      }
    } else {
      NoRoomIsMalformed(s);
    }
  }

  lemma NoRoomIsMalformed(s: seq<byte>)
    requires s != [] && !RoomForExtensions(s)
    ensures FormatOne(s) == Stop
  {
  }

  lemma StepWrong(s: seq<byte>) returns (behind: seq<byte>)
    requires s != [] && !RightStep(s)
    ensures |behind| == 2 && WalkOne(s, behind) != FormatOne(s)
  {
    CutShortIff(s);
    if HeaderFits(s) {
      behind := [0, 0];
      InsideIgnoresBehind(s, behind);
      FieldsRightIff(s);
    } else {
      behind := CutGoesOn(s);
      CutStep(s, behind);
    }
  }

  /** So it is for every option that the format reads in `s`, and for the one it stops at. */
  ghost predicate AllRight(s: seq<byte>)
    decreases |s|
  {
    EndsOptions(s) ||
    (RightStep(s) && (FormatOne(s).Stop? || AllRight(s[FormatOne(s).size..])))
  }

  lemma {:induction false} AllRightReads(s: seq<byte>, behind: seq<byte>)
    requires AllRight(s) && |behind| >= 2
    ensures WalkAll(s, behind) == FormatAll(s)
    decreases |s|
  {
    hide RightStep, WalkOne, FormatOne;
    if !EndsOptions(s) {
      StepRight(s, behind);
      if FormatOne(s).Step? {
        AllRightReads(s[FormatOne(s).size..], behind);
      }
    }
  }

  lemma {:induction false} WrongReads(s: seq<byte>) returns (behind: seq<byte>)
    requires !AllRight(s)
    ensures |behind| == 2 && WalkAll(s, behind) != FormatAll(s)
    decreases |s|
  {
    hide RightStep, WalkOne, FormatOne;
    if RightStep(s) {
      var rest := s[FormatOne(s).size..];
      behind := WrongReads(rest);
      StepRight(s, behind);
      BeforeTail(FormatOne(s), WalkAll(rest, behind));
      BeforeTail(FormatOne(s), FormatAll(rest));
    } else {
      behind := StepWrong(s);
      FirstStep(s, behind);
    }
  }

  lemma BeforeTail(step: Step, w: Walk)
    ensures Before(step, w).steps[1..] == w.steps
  {
  }

  lemma FirstStep(s: seq<byte>, behind: seq<byte>)
    requires !EndsOptions(s) && |behind| >= 2
    ensures WalkAll(s, behind).steps == [] <==> WalkOne(s, behind).Stop?
    ensures WalkOne(s, behind).Step? ==> WalkAll(s, behind).steps[0] == WalkOne(s, behind)
    ensures FormatAll(s).steps == [] <==> FormatOne(s).Stop?
    ensures FormatOne(s).Step? ==> FormatAll(s).steps[0] == FormatOne(s)
  {
  }

  /** The walk reads the options that the format has in the message, every one of them with its
      delta, its length and its size, and ends where the format ends, whatever the memory behind
      holds, iff every option it comes to meets the condition. */
  lemma ReadsRightIff(s: seq<byte>)
    ensures (forall behind: seq<byte> | |behind| >= 2 :: WalkAll(s, behind) == FormatAll(s)) <==> AllRight(s)
  {
    if AllRight(s) {
      forall behind: seq<byte> | |behind| >= 2
        ensures WalkAll(s, behind) == FormatAll(s)
      {
        AllRightReads(s, behind);
      }
    } else {
      var behind := WrongReads(s);
    }
  }

  // ----- the verdict -----

  ghost predicate Accepts(w: Walk) {
    !w.stopped && w.rest != [PAYLOAD_MARKER]
  }

  /** What the walk makes of a message is what it makes of the place where it comes to rest. */
  lemma {:induction false} InsideDecides(s: seq<byte>, behind: seq<byte>)
    requires |behind| >= 2
    ensures Accepts(WalkAll(s, behind)) == Accepts(WalkAll(Inside(s), behind))
    decreases |s|
  {
    hide StepOn, HeaderFits, RoomForExtensions;
    if !EndsOptions(s) && RoomForExtensions(s) && HeaderFits(s) {
      InsideIgnoresBehind(s, behind);
      if StepOn(s, |s|).Step? {
        InsideDecides(s[StepOn(s, |s|).size..], behind);
      }
    }
  }

  lemma {:induction false} InsideRests(s: seq<byte>)
    ensures var e := Inside(s);
            EndsOptions(e) || !RoomForExtensions(e) || !HeaderFits(e) || StepOn(e, |e|).Stop?
    decreases |s|
  {
    hide StepOn, HeaderFits, RoomForExtensions;
    if !(EndsOptions(s) || !RoomForExtensions(s) || !HeaderFits(s) || StepOn(s, |s|).Stop?) {
      InsideRests(s[StepOn(s, |s|).size..]);
    }
  }

  /** At rest on anything but a cut header, the verdict is the same for every memory. */
  lemma RestDecides(e: seq<byte>, behind: seq<byte>)
    requires EndsOptions(e) || !RoomForExtensions(e) || (HeaderFits(e) && StepOn(e, |e|).Stop?)
    requires |behind| >= 2
    ensures Accepts(WalkAll(e, behind)) <==> EndsOptions(e) && e != [PAYLOAD_MARKER]
  {
    hide StepOn, HeaderFits, RoomForExtensions;
    if HeaderFits(e) { InsideIgnoresBehind(e, behind); }
  }

  /** A cut header that does not leave it open. */
  lemma CutDecides(e: seq<byte>, behind: seq<byte>)
    requires CutShort(e) && !Undecided(e) && |behind| >= 2
    ensures Accepts(WalkAll(e, behind)) <==> e[0] == 0xE0 && e[1] == 0xFF
  {
    hide WalkOne, FieldAt;
    MarkerIsNotCut(e);
    if !MayGoOn(e) {
      CutStops(e, behind);
    } else {
      CutStep(e, behind);
      var u := e + behind;
      assert u[0] == e[0] && u[1] == e[1] && u[2] == behind[0];
      Cut16Is(14, u, 1);
      Cut16Is(0, u, 3);
      if e[1] == 0xFE {
        if WalkOne(e, behind).Step? {
          assert WalkOne(e, behind).size == 1;
          assert e[1..] == [0xFE];
          NibbleStops(behind);
        }
      } else {
        assert WalkOne(e, behind).size == 2;
        assert e[2..] == [];
      }
    }
  }

  lemma NibbleStops(behind: seq<byte>)
    requires |behind| >= 2
    ensures WalkAll([0xFE], behind) == Walk([], [0xFE], true)
  {
    assert !RoomForExtensions([0xFE]);
  }

  /** For a cut header that leaves it open there are both kinds of memory. */
  lemma CutUndecided(e: seq<byte>) returns (yes: seq<byte>, no: seq<byte>)
    requires CutShort(e) && Undecided(e)
    ensures |yes| == 2 && |no| == 2 && Accepts(WalkAll(e, yes)) && !Accepts(WalkAll(e, no))
  {
    hide WalkOne, FieldAt;
    yes := CutGoesOn(e);
    no := [0, 0];
    MarkerIsNotCut(e);
    assert e[|e|..] == [];
    CutStep(e, no);
    var u := e + no;
    assert forall i :: 0 <= i < |e| ==> u[i] == e[i];
    assert u[|e|] == 0 && u[|e| + 1] == 0;
    Cut16Is(e[0] / 16, u, 1);
    Cut16Is(e[0] % 16, u, 1 + ExtensionLength(e[0] / 16));
  }

  /** The verdict depends on the memory behind the message iff the walk comes to a cut header
      that leaves it open. */
  lemma VerdictDependsIff(s: seq<byte>)
    ensures (exists yes: seq<byte>, no: seq<byte> | |yes| >= 2 && |no| >= 2 ::
              Accepts(WalkAll(s, yes)) && !Accepts(WalkAll(s, no)))
       <==> CutShort(Inside(s)) && Undecided(Inside(s))
  {
    var e := Inside(s);
    InsideRests(s);
    if CutShort(e) && Undecided(e) {
      var yes, no := CutUndecided(e);
      InsideDecides(s, yes);
      InsideDecides(s, no);
    } else {
      if e != [] { CutShortIff(e); }
      forall yes: seq<byte>, no: seq<byte> | |yes| >= 2 && |no| >= 2
        ensures Accepts(WalkAll(s, yes)) ==> Accepts(WalkAll(s, no))
      {
        InsideDecides(s, yes);
        InsideDecides(s, no);
        if CutShort(e) {
          CutDecides(e, yes);
          CutDecides(e, no);
        } else {
          RestDecides(e, yes);
          RestDecides(e, no);
        }
      }
    }
  }

  /** The options and the payload of a message are well formed: options, then the end or a
      marker and a payload that is not empty. */
  ghost predicate WellFormedBody(s: seq<byte>) {
    Decode(0, s).Decoded? && Decode(0, s).tail != [PAYLOAD_MARKER]
  }

  lemma WellFormedIsAccepted(s: seq<byte>)
    ensures WellFormedBody(s) <==> Accepts(FormatAll(s))
  {
    FormatIsDecode(0, s);
  }

  /** At rest here, the walk accepts whatever the memory behind holds. */
  ghost predicate AcceptsAtRest(e: seq<byte>) {
    if EndsOptions(e) then e != [PAYLOAD_MARKER] else e == [0xE0, 0xFF]
  }

  /** The verdict alone, from the octets of the message: it is accepted for every memory behind it iff
      the walk comes to rest where it accepts, and for some memory iff it does so or leaves it open. */
  lemma AcceptedIff(s: seq<byte>)
    ensures (forall behind: seq<byte> | |behind| >= 2 :: Accepts(WalkAll(s, behind))) <==> AcceptsAtRest(Inside(s))
    ensures (exists behind: seq<byte> | |behind| >= 2 :: Accepts(WalkAll(s, behind)))
       <==> AcceptsAtRest(Inside(s)) || (CutShort(Inside(s)) && Undecided(Inside(s)))
  {
    hide WalkAll, Accepts;
    var e := Inside(s);
    InsideRests(s);
    if CutShort(e) && Undecided(e) {
      UndecidedIsNotAtRest(e);
      hide Undecided;
      var yes, no := CutUndecided(e);
      InsideDecides(s, yes);
      InsideDecides(s, no);
    } else {
      hide Undecided;
      forall behind: seq<byte> | |behind| >= 2
        ensures Accepts(WalkAll(s, behind)) <==> AcceptsAtRest(e)
      {
        InsideDecides(s, behind);
        RestAccepts(e, behind);
      }
      assert |[0 as byte, 0]| >= 2 && (Accepts(WalkAll(s, [0, 0])) <==> AcceptsAtRest(e));
    }
  }

  lemma UndecidedIsNotAtRest(e: seq<byte>)
    requires CutShort(e) && Undecided(e)
    ensures !AcceptsAtRest(e)
  {
  }

  lemma RestAccepts(e: seq<byte>, behind: seq<byte>)
    requires EndsOptions(e) || !RoomForExtensions(e) || !HeaderFits(e) || StepOn(e, |e|).Stop?
    requires !(CutShort(e) && Undecided(e)) && |behind| >= 2
    ensures Accepts(WalkAll(e, behind)) <==> AcceptsAtRest(e)
  {
    hide WalkAll, StepOn, Undecided, Accepts;
    if CutShort(e) {
      MarkerIsNotCut(e);
      CutDecides(e, behind);
      if e[0] == 0xE0 && e[1] == 0xFF { assert e == [0xE0, 0xFF]; }
    } else {
      if e != [] { CutShortIff(e); }
      RestDecides(e, behind);
    }
  }

  /** A well-formed message that is read right is accepted without a look behind it. */
  lemma {:induction false} RightLooksInside(s: seq<byte>, behind: seq<byte>)
    requires AllRight(s) && !FormatAll(s).stopped && |behind| >= 2
    ensures !LooksBehind(s, behind)
    decreases |s|
  {
    hide RightStep, WalkOne, ParseOption;
    if !EndsOptions(s) {
      StepRight(s, behind);
      ParsedFits(s);
      RightLooksInside(s[FormatOne(s).size..], behind);
    }
  }

  lemma ParsedFits(s: seq<byte>)
    requires FormatOne(s).Step?
    ensures HeaderFits(s)
  {
  }

  // ----- messages that are read wrong -----

  /** Two octets that are accepted or not as the octet behind them says; they are malformed. */
  lemma BehindDecides()
    ensures Accepts(WalkAll([0x0E, 0xFE], [0xF4, 0])) && !Accepts(WalkAll([0x0E, 0xFE], [0, 0]))
    ensures Decode(0, [0x0E, 0xFE]) == Rejected
  {
    var s: seq<byte> := [0x0E, 0xFE];
    CutStep(s, [0xF4, 0]);
    CutStep(s, [0, 0]);
    assert s[2..] == [];
  }

  /** One turn on a header with a two-octet extension that exceeds 16 bits. */
  lemma WrappedStep(s: seq<byte>, behind: seq<byte>)
    requires |s| >= 3 && s[1] == 0xFF && s[2] == 0 && |behind| >= 2
    ensures s[0] == 0x0E && |s| == 15 ==> WalkOne(s, behind) == Step(0, 13, 15) && FormatOne(s) == Stop
    ensures s[0] == 0xE0 && |s| == 3 ==> WalkOne(s, behind) == Step(13, 0, 2) && FormatOne(s) == Step(65549, 0, 3)
  {
    hide Field;
    if HeaderFits(s) {
      InsideIgnoresBehind(s, behind);
      Cut16Is(s[0] / 16, s, 1);
      Cut16Is(s[0] % 16, s, 1 + ExtensionLength(s[0] / 16));
    }
  }

  /** A body that lies inside the message and is malformed, but accepted: its length is 65549. */
  lemma MalformedIsAccepted(value: seq<byte>, behind: seq<byte>)
    requires |value| == 12 && |behind| >= 2
    ensures var s := [0x0E, 0xFF, 0x00] + value;
            Decode(0, s) == Rejected && WalkAll(s, behind) == Walk([Step(0, 13, 15)], [], false)
  {
    hide WalkOne, ParseOption;
    var s: seq<byte> := [0x0E, 0xFF, 0x00] + value;
    WrappedStep(s, behind);
    assert s[15..] == [];
  }

  lemma ZeroStep(behind: seq<byte>)
    requires |behind| >= 2
    ensures WalkOne([0x00], behind) == Step(0, 0, 1)
  {
    InsideIgnoresBehind([0x00], behind);
  }

  lemma WalkUnfold(s: seq<byte>, behind: seq<byte>)
    requires !EndsOptions(s) && |behind| >= 2 && WalkOne(s, behind).Step?
    ensures var x := WalkOne(s, behind);
            var w := WalkAll(s[x.size..], behind);
            WalkAll(s, behind) == Walk([x] + w.steps, w.rest, w.stopped)
  {
  }

  /** A walk that ends with the message after one option. */
  lemma LastStep(s: seq<byte>, behind: seq<byte>)
    requires !EndsOptions(s) && |behind| >= 2
    ensures WalkOne(s, behind).Step? && WalkOne(s, behind).size == |s| ==>
              WalkAll(s, behind) == Walk([WalkOne(s, behind)], [], false)
    ensures FormatOne(s).Step? && FormatOne(s).size == |s| ==> FormatAll(s) == Walk([FormatOne(s)], [], false)
  {
    hide WalkOne, FormatOne;
    assert s[|s|..] == [];
  }

  /** A body that the walk reads as two options and the format as one: both accept it. */
  lemma AcceptedByChance(behind: seq<byte>)
    requires |behind| >= 2
    ensures var s := [0xE0, 0xFF, 0x00];
            WalkAll(s, behind) == Walk([Step(13, 0, 2), Step(0, 0, 1)], [], false) &&
            FormatAll(s) == Walk([Step(65549, 0, 3)], [], false)
  {
    hide WalkAll, FormatAll, WalkOne, FormatOne;
    var s: seq<byte> := [0xE0, 0xFF, 0x00];
    WrappedStep(s, behind);
    ZeroStep(behind);
    LastStep([0x00], behind);
    LastStep(s, behind);
    assert s[2..] == [0x00];
    WalkUnfold(s, behind);
  }

  // ----- what an encoder has built -----

  /** Every delta and every length fits 16 bits. */
  ghost predicate Deltas16(prev: nat, opts: seq<Option>)
    decreases opts
  {
    opts == [] ||
    (opts[0].number - prev < 65536 && |opts[0].value| < 65536 && Deltas16(opts[0].number, opts[1..]))
  }

  lemma BuiltStep(delta: nat, value: seq<byte>, rest: seq<byte>)
    requires delta <= MAX_FIELD && |value| <= MAX_FIELD
    ensures var s := OptionBytes(delta, value) + rest;
            !EndsOptions(s) && FormatOne(s) == Step(delta, |value|, |OptionBytes(delta, value)|) &&
            s[|OptionBytes(delta, value)|..] == rest &&
            (RightStep(s) <==> delta < 65536 && |value| < 65536)
  {
    hide OptionBytes, FormatOne, FieldAt, Cut16, ExtraBytes, RoomForExtensions;
    var s := OptionBytes(delta, value) + rest;
    ParseOptionBytes(delta, value, rest);
    BuiltFormat(delta, value, rest);
    ParsedFits(s);
    FitsHasRoom(s);
    FormatFields(s);
    var at := 1 + ExtensionLength(s[0] / 16);
    Cut16Is(s[0] / 16, s, 1);
    Cut16Is(s[0] % 16, s, at);
  }

  lemma FitsHasRoom(s: seq<byte>)
    requires HeaderFits(s)
    ensures RoomForExtensions(s)
  {
  }

  lemma BuiltFormat(delta: nat, value: seq<byte>, rest: seq<byte>)
    requires delta <= MAX_FIELD && |value| <= MAX_FIELD
    ensures var s := OptionBytes(delta, value) + rest;
            !EndsOptions(s) && FormatOne(s) == Step(delta, |value|, |OptionBytes(delta, value)|) &&
            s[|OptionBytes(delta, value)|..] == rest
  {
    hide ParseOption, OptionBytes;
    ParseOptionBytes(delta, value, rest);
    OptionBytesOfParse(OptionBytes(delta, value) + rest);
  }

  /** An encoded list is read right iff all its deltas and lengths fit 16 bits. */
  lemma {:induction false} BuiltRightIff(prev: nat, opts: seq<Option>)
    requires Encodable(prev, opts)
    ensures AllRight(Encode(prev, opts)) <==> Deltas16(prev, opts)
    decreases opts
  {
    if opts != [] {
      var o := opts[0];
      BuiltStep(o.number - prev, o.value, Encode(o.number, opts[1..]));
      BuiltRightIff(o.number, opts[1..]);
      hide RightStep, FormatOne, OptionBytes;
    }
  }
}
