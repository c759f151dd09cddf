/** The installer auto-answer: it watches the guest's serial output through a
    short window and queues replies, one of which erases a disk. */
module SerialAnswer {
  import opened Common

  const WIN: nat := 48
  const QCAP: nat := 768
  const YES_MAX: nat := 4

  // ---- prompts ----

  const LOGIN := "login:"
  const SHELL := "~# "
  const SHELL_ROOT := "/ # "
  const GRUB := "GNU GRUB"
  const BOOTLOADER_Q := "bootloader?"
  const DISK_Q := "Which disk"
  const USE_Q := "How would you like"
  const NO_DISK := "No disks available"
  const PLEASE_REBOOT := "Please reboot."

  ghost predicate Ends(stream: string, needle: string) {
    |needle| <= |stream| && stream[|stream| - |needle|..] == needle
  }

  /** The most recent bytes, as many as the window keeps. */
  ghost function Window(stream: string): string {
    if |stream| <= WIN then stream else stream[|stream| - WIN..]
  }

  /** The window decides every prompt it has room for: it ends with one
      exactly when the whole stream does. */
  lemma WindowDecides(stream: string, needle: string)
    requires 0 < |needle| <= WIN
    ensures Ends(Window(stream), needle) <==> Ends(stream, needle)
  {
    var w := Window(stream);
    if |needle| <= |w| {
      assert w[|w| - |needle|..] == stream[|stream| - |needle|..];
    }
  }

  lemma WindowSlides(stream: string, b: char)
    ensures Window(stream + [b]) ==
            if |Window(stream)| < WIN then Window(stream) + [b] else Window(stream)[1..] + [b]
  {}

  // ---- progress marks ----

  ghost predicate Occurs(s: string, needle: string) {
    exists i :: OccursAt(s, needle, i)
  }

  predicate OccursAt(s: string, needle: string, i: int) {
    0 <= i && i + |needle| <= |s| && s[i..i + |needle|] == needle
  }

  /** An occurrence in the part of `s` from `k` is one in `s`, and back. */
  lemma OccursInPart(s: string, k: nat, n: nat, needle: string, i: int)
    requires k + n <= |s|
    ensures OccursAt(s[k..k + n], needle, i) <==> 0 <= i && i + |needle| <= n && OccursAt(s, needle, i + k)
  {
    if 0 <= i && i + |needle| <= n {
      var part, lo, hi := s[k..k + n], i + k, i + k + |needle|;
      var a, b := part[i..i + |needle|], s[lo..hi];
      forall j | 0 <= j < |needle|
        ensures a[j] == b[j]
      {
        assert a[j] == part[i + j] && b[j] == s[lo + j];
      }
      assert a == b;
    }
  }

  lemma OccursWider(s: string, k: nat, n: nat, needle: string)
    requires k + n <= |s| && Occurs(s[k..k + n], needle)
    ensures Occurs(s, needle)
  {
    hide OccursAt;
    var i :| OccursAt(s[k..k + n], needle, i);
    OccursInPart(s, k, n, needle, i);
  }

  /** A needle that fits the window occurs in the stream exactly when it has
      been seen in the window at some byte: every occurrence ends once. */
  lemma SeenOnce(stream: string, b: char, needle: string)
    requires 0 < |needle| <= WIN
    ensures Occurs(stream + [b], needle) <==> Occurs(stream, needle) || Occurs(Window(stream + [b]), needle)
  {
    hide OccursAt;
    var t := stream + [b];
    var w := Window(t);
    var skip := |t| - |w|;
    assert stream == t[0..0 + |stream|] && w == t[skip..skip + |w|];
    if Occurs(t, needle) {
      var i :| OccursAt(t, needle, i);
      OccursInPart(t, 0, |stream|, needle, i);
      OccursInPart(t, skip, |w|, needle, i - skip);
      InRange(t, needle, i);
    }
    if Occurs(stream, needle) {
      OccursWider(t, 0, |stream|, needle);
    }
    if Occurs(w, needle) {
      OccursWider(t, skip, |w|, needle);
    }
  }

  lemma InRange(s: string, needle: string, i: int)
    requires OccursAt(s, needle, i)
    ensures 0 <= i && i + |needle| <= |s|
  {}

  lemma NothingShown()
    ensures !Overlay("") && !Mounted("")
  {}

  /** The installer has begun on the packages. */
  ghost predicate Overlay(stream: string) {
    Occurs(stream, "Installing p") || Occurs(stream, "packages to")
  }

  /** The boot media is mounted, or the packages show that it must be. */
  ghost predicate Mounted(stream: string) {
    Overlay(stream) || Occurs(stream, "media: ok")
  }

  ghost predicate IsYes(t: string) {
    Ends(t, "(y/n)") || Ends(t, "(y/N)") || Ends(t, "[y/N]") || Ends(t, "[y/n]") || Ends(t, "[Y/n]") || Ends(t, "[Y/N]")
  }

  ghost predicate IsShell(t: string) {
    Ends(t, SHELL) || Ends(t, SHELL_ROOT)
  }

  // ---- the machine ----

  datatype Reply = Enter | Root | MountExit | Setup | Prove | Reboot | Yes | No | Disk | Sys | Bootloader

  datatype Phase = AtLogin | AtShell | Confirming | Done | Installed

  /** What the rest of the system says at this byte. */
  datatype Policy = Policy(quiet: bool, guestsIso: bool, wipeAllowed: bool)

  /** Where the dialogue stands. `withheld` is the note that the erasing reply
      was not sent: `true` if the guests' own ISO was the reason. */
  datatype State = State(phase: Phase, yesLeft: nat, grubSent: bool, nextYesIsNo: bool, mountSent: bool,
                         rebootSent: bool, second: bool, withheld: Option<bool>)

  function Fresh(second: bool): State {
    State(AtLogin, YES_MAX, false, false, false, false, second, None)
  }

  /** The policy lets the erasing reply out. */
  predicate Allows(p: Policy) {
    !p.quiet && !p.guestsIso && p.wipeAllowed
  }

  function SetupOrWithhold(s: State, p: Policy): (r: (State, Option<Reply>)) {
    if p.quiet then (s.(phase := Done), None)
    else if p.guestsIso then (s.(phase := Done, withheld := Some(true)), None)
    else if p.wipeAllowed then (s.(phase := Confirming), Some(Setup))
    else (s.(phase := Done, withheld := Some(false)), None)
  }

  ghost function OnLogin(s: State, t: string, p: Policy): (State, Option<Reply>) {
    if !p.quiet && !s.grubSent && Ends(t, GRUB) then (s.(grubSent := true), Some(Enter))
    else if !p.quiet && Ends(t, LOGIN) then (s.(phase := AtShell), Some(Root))
    else if !s.second && Ends(t, SHELL_ROOT) then (s.(mountSent := true), if s.mountSent then None else Some(MountExit))
    else if !s.second && Ends(t, SHELL) then SetupOrWithhold(s, p)
    else (s, None)
  }

  ghost function OnConfirm(s: State, t: string): (State, Option<Reply>) {
    if Ends(t, PLEASE_REBOOT) then (s.(phase := Installed), None)
    else if Ends(t, NO_DISK) then (s.(nextYesIsNo := true), None)
    else if IsYes(t) then
      if s.nextYesIsNo then (s.(nextYesIsNo := false), Some(No))
      else if s.yesLeft > 0 then (s.(yesLeft := s.yesLeft - 1), Some(Yes))
      else (s, None)
    else if Ends(t, DISK_Q) then (s, Some(Disk))
    else if Ends(t, USE_Q) then (s, Some(Sys))
    else if Ends(t, BOOTLOADER_Q) then (s.(phase := Done), Some(Bootloader))
    else (s, None)
  }

  /** One more byte of guest output, `t` the whole stream with it. */
  ghost function React(s: State, t: string, p: Policy): (State, Option<Reply>) {
    match s.phase
    case AtLogin => OnLogin(s, t, p)
    case AtShell =>
      if !IsShell(t) then (s, None)
      else if s.second then (s.(phase := Done), Some(Prove))
      else SetupOrWithhold(s, p)
    case Confirming => OnConfirm(s, t)
    case Done => if Ends(t, PLEASE_REBOOT) then (s.(phase := Installed), None) else (s, None)
    case Installed =>
      if IsShell(t) then (s.(phase := Done, rebootSent := true), if s.rebootSent then None else Some(Reboot))
      else (s, None)
  }

  // ---- runs ----

  /** A reply, and the policy at the byte that drew it. */
  datatype Entry = Entry(reply: Reply, policy: Policy)

  ghost function Count(log: seq<Entry>, r: Reply): nat {
    if log == [] then 0 else Count(log[..|log| - 1], r) + if log[|log| - 1].reply == r then 1 else 0
  }

  ghost predicate Asked(log: seq<Entry>) {
    exists j :: 0 <= j < |log| && log[j].reply == Setup
  }

  /** The erasing reply went out at most once, only with the policy's leave,
      and never on a second boot; confirmations only follow it, at most four;
      one reboot. */
  ghost predicate Careful(log: seq<Entry>, second: bool) {
    && Count(log, Setup) <= 1 && Count(log, Yes) <= YES_MAX && Count(log, Reboot) <= 1
    && (forall i {:trigger log[i]} :: 0 <= i < |log| && log[i].reply == Setup ==> Allows(log[i].policy) && !second)
    && (forall i {:trigger log[..i]} :: 0 <= i < |log| && log[i].reply == Yes ==> Asked(log[..i]))
  }

  ghost predicate Books(s: State, log: seq<Entry>) {
    && Careful(log, s.second)
    && (Early(s) ==> Count(log, Setup) == 0 && s.withheld == None)
    && (s.withheld.Some? ==> Count(log, Setup) == 0)
    && (s.phase == Confirming ==> Asked(log))
    && Count(log, Yes) + s.yesLeft == YES_MAX
    && Count(log, Reboot) == if s.rebootSent then 1 else 0
  }

  function Logged(log: seq<Entry>, r: Option<Reply>, p: Policy): seq<Entry> {
    if r.None? then log else log + [Entry(r.value, p)]
  }

  lemma CountGrows(log: seq<Entry>, e: Entry, r: Reply)
    ensures Count(log + [e], r) == Count(log, r) + if e.reply == r then 1 else 0
  {
    assert (log + [e])[..|log|] == log;
  }

  lemma AskedGrows(log: seq<Entry>, e: Entry)
    ensures Asked(log) || e.reply == Setup ==> Asked(log + [e])
  {
    if e.reply == Setup {
      assert (log + [e])[|log|].reply == Setup;
    } else if Asked(log) {
      var j :| 0 <= j < |log| && log[j].reply == Setup;
      assert (log + [e])[j].reply == Setup;
    }
  }

  lemma CarefulGrows(log: seq<Entry>, e: Entry, second: bool)
    requires Careful(log, second)
    requires e.reply == Setup ==> Count(log, Setup) == 0 && Allows(e.policy) && !second
    requires e.reply == Yes ==> Asked(log) && Count(log, Yes) < YES_MAX
    requires e.reply == Reboot ==> Count(log, Reboot) == 0
    ensures Careful(log + [e], second)
  {
    CountGrows(log, e, Setup);
    CountGrows(log, e, Yes);
    CountGrows(log, e, Reboot);
    var log' := log + [e];
    forall i | 0 <= i < |log'| && log'[i].reply == Yes
      ensures Asked(log'[..i])
    {
      if i < |log| {
        assert log'[..i] == log[..i];
      } else {
        assert log'[..i] == log;
      }
    }
  }

  predicate Early(s: State) {
    s.phase == AtLogin || s.phase == AtShell
  }

  /** When each of the counted replies is drawn, and what it costs. */
  ghost predicate Draws(s: State, s': State, r: Option<Reply>, p: Policy) {
    && s'.second == s.second
    && (Early(s') ==> Early(s) && r != Some(Setup))
    && (r == Some(Setup) ==> Early(s) && Allows(p) && !s.second)
    && (s'.phase == Confirming ==> s.phase == Confirming || r == Some(Setup))
    && s.yesLeft == s'.yesLeft + (if r == Some(Yes) then 1 else 0)
    && (r == Some(Yes) ==> s.phase == Confirming)
    && s'.rebootSent == (s.rebootSent || r == Some(Reboot))
    && (r == Some(Reboot) ==> !s.rebootSent)
    && (s'.withheld != s.withheld ==> Early(s) && !Early(s') && r == None)
  }

  lemma LoginDraws(s: State, t: string, p: Policy)
    requires s.phase == AtLogin
    ensures Draws(s, OnLogin(s, t, p).0, OnLogin(s, t, p).1, p)
  {
    hide Ends;
  }

  lemma ConfirmDraws(s: State, t: string, p: Policy)
    requires s.phase == Confirming
    ensures Draws(s, OnConfirm(s, t).0, OnConfirm(s, t).1, p)
  {
    hide Ends, IsYes;
  }

  lemma ReactDraws(s: State, t: string, p: Policy)
    ensures Draws(s, React(s, t, p).0, React(s, t, p).1, p)
  {
    hide Ends, IsShell, OnLogin, OnConfirm;
    match s.phase
    case AtLogin => LoginDraws(s, t, p);
    case Confirming => ConfirmDraws(s, t, p);
    case _ =>
  }

  lemma ReactBooks(s: State, t: string, p: Policy, log: seq<Entry>)
    requires Books(s, log)
    ensures Books(React(s, t, p).0, Logged(log, React(s, t, p).1, p))
    ensures React(s, t, p).0.second == s.second
  {
    hide React, Count, Asked, Careful;
    ReactDraws(s, t, p);
    var (s', r) := React(s, t, p);
    if r.Some? {
      var e := Entry(r.value, p);
      CountGrows(log, e, Setup);
      CountGrows(log, e, Yes);
      CountGrows(log, e, Reboot);
      AskedGrows(log, e);
      CarefulGrows(log, e, s.second);
    }
  }

  /** A session: the bytes since the last reset, each with its policy. */
  ghost function Session(s: State, stream: string, input: seq<(char, Policy)>, log: seq<Entry>): (State, seq<Entry>)
    decreases |input|
  {
    if input == [] then (s, log)
    else
      var (b, p) := input[0];
      var (s', r) := React(s, stream + [b], p);
      Session(s', stream + [b], input[1..], Logged(log, r, p))
  }

  lemma {:induction false} SessionBooks(s: State, stream: string, input: seq<(char, Policy)>, log: seq<Entry>)
    requires Books(s, log)
    ensures Books(Session(s, stream, input, log).0, Session(s, stream, input, log).1)
    ensures Session(s, stream, input, log).0.second == s.second
    decreases |input|
  {
    if input != [] {
      var (b, p) := input[0];
      ReactBooks(s, stream + [b], p, log);
      var (s', r) := React(s, stream + [b], p);
      SessionBooks(s', stream + [b], input[1..], Logged(log, r, p));
    }
  }

  /** Whatever the guest prints after a reset, and however the policy changes
      underneath, the replies are careful. */
  lemma SessionCareful(second: bool, input: seq<(char, Policy)>)
    ensures Careful(Session(Fresh(second), "", input, []).1, second)
    ensures Session(Fresh(second), "", input, []).0.withheld.Some? ==> Count(Session(Fresh(second), "", input, []).1, Setup) == 0
  {
    SessionBooks(Fresh(second), "", input, []);
  }

  /** A power-on run: sessions one after another, each ended by a reset of the
      serial port, which keeps the second-boot mark, or by the relaunch that
      sets it. */
  datatype Stretch = Stretch(input: seq<(char, Policy)>, relaunch: bool)

  ghost function Log(second: bool, run: seq<Stretch>): seq<Entry>
    decreases |run|
  {
    if run == [] then []
    else Session(Fresh(second), "", run[0].input, []).1 + Log(second || run[0].relaunch, run[1..])
  }

  /** Once the second boot has begun, no reset re-arms the erasing reply. */
  lemma {:induction false} SecondBootNeverErases(run: seq<Stretch>, i: nat)
    requires i < |Log(true, run)|
    ensures Log(true, run)[i].reply != Setup
    decreases |run|
  {
    var first := Session(Fresh(true), "", run[0].input, []).1;
    SessionCareful(true, run[0].input);
    if i >= |first| {
      SecondBootNeverErases(run[1..], i - |first|);
    }
  }

  // ---- the answerer ----

  /** Slot `i` places after `head` in a ring of `QCAP`. */
  function Slot(head: nat, i: nat): (k: nat)
    requires head < QCAP && i <= QCAP
    ensures k < QCAP && k == (head + i) % QCAP
  {
    if head + i < QCAP then head + i else head + i - QCAP
  }

  class Answerer {
    const win: array<char>
    var wlen: nat
    const q: array<char>
    var qh: nat
    var qn: nat
    var phase: Phase
    var yesLeft: nat
    var grubSent: bool
    var nextYesIsNo: bool
    var mountSent: bool
    var rebootSent: bool
    var second: bool
    var withheld: Option<bool>
    var mounted: bool
    var overlay: bool
    ghost var stream: string

    ghost predicate Valid()
      reads this, win, q
    {
      && win.Length == WIN && wlen <= WIN && win[..wlen] == Window(stream)
      && q.Length == QCAP && qh < QCAP && qn <= QCAP && win != q
    }

    /** The progress marks say what the stream since the reset has shown. */
    ghost predicate Marked()
      reads this
    {
      (overlay <==> Overlay(stream)) && (mounted <==> Mounted(stream))
    }

    ghost function Now(): State
      reads this
    {
      State(phase, yesLeft, grubSent, nextYesIsNo, mountSent, rebootSent, second, withheld)
    }

    /** The reply bytes waiting, oldest first. */
    ghost function Queue(): string
      requires Valid()
      reads this, win, q
    {
      seq(qn, i requires 0 <= i < qn && Valid() reads this, win, q => q[Slot(qh, i)])
    }

    constructor ()
      ensures Valid() && fresh(win) && fresh(q)
      ensures Now() == Fresh(false) && stream == "" && Queue() == "" && Marked()
    {
      win := new char[WIN];
      q := new char[QCAP];
      wlen, qh, qn, stream := 0, 0, 0, "";
      phase, yesLeft, grubSent, nextYesIsNo := AtLogin, YES_MAX, false, false;
      mountSent, rebootSent, second, withheld := false, false, false, None;
      mounted, overlay := false, false;
    }

    method ClearBuffers()
      requires Valid()
      modifies this`wlen, this`qh, this`qn, this`stream
      ensures Valid() && stream == "" && Queue() == ""
    {
      wlen, qh, qn, stream := 0, 0, 0, "";
    }

    /** The serial port's reset leaves the second-boot mark alone. */
    method Reset()
      requires Valid()
      modifies this
      ensures Valid() && Now() == Fresh(old(second)) && stream == "" && Queue() == "" && Marked()
    {
      hide Overlay, Mounted, Window;
      NothingShown();
      ClearBuffers();
      phase, yesLeft, grubSent, nextYesIsNo := AtLogin, YES_MAX, false, false;
      mountSent, rebootSent, withheld := false, false, None;
      mounted, overlay := false, false;
    }

    method BeginSecondBoot()
      requires Valid()
      modifies this
      ensures Valid() && Now() == Fresh(true) && stream == "" && Queue() == "" && Marked()
    {
      hide Overlay, Mounted;
      Reset();
      second := true;
    }

    /** Slides one byte into the window. */
    method Push(b: char)
      requires Valid()
      modifies this`wlen, this`stream, win
      ensures Valid() && stream == old(stream) + [b] && Queue() == old(Queue())
    {
      WindowSlides(stream, b);
      ghost var was := win[..wlen];
      if wlen < WIN {
        win[wlen] := b;
        wlen := wlen + 1;
        assert win[..wlen] == was + [b];
      } else {
        forall i | 0 <= i < WIN - 1 {
          win[i] := win[i + 1];
        }
        win[WIN - 1] := b;
        assert win[..wlen] == was[1..] + [b];
      }
      stream := stream + [b];
    }

    method EndsWith(needle: string) returns (r: bool)
      requires Valid() && 0 < |needle| <= WIN
      ensures r <==> Ends(stream, needle)
    {
      WindowDecides(stream, needle);
      if wlen < |needle| {
        return false;
      }
      assert win[wlen - |needle|..wlen] == Window(stream)[wlen - |needle|..];
      return win[wlen - |needle|..wlen] == needle;
    }

    method WindowHas(needle: string) returns (r: bool)
      requires Valid() && 0 < |needle|
      ensures r <==> Occurs(Window(stream), needle)
    {
      hide Window;
      var seen := win[..wlen];
      var i := 0;
      while i + |needle| <= |seen|
        invariant 0 <= i
        invariant forall j :: 0 <= j < i ==> !OccursAt(seen, needle, j)
      {
        if seen[i..i + |needle|] == needle {
          assert OccursAt(seen, needle, i);
          return true;
        }
        i := i + 1;
      }
      return false;
    }

    /** Sets the marks this byte completes. */
    method MarkProgress(ghost before: string, ghost b: char)
      requires Valid() && stream == before + [b]
      requires (overlay <==> Overlay(before)) && (mounted <==> Mounted(before))
      modifies this`mounted, this`overlay
      ensures Valid() && Marked()
    {
      hide Occurs, Window;
      SeenOnce(before, b, "Installing p");
      SeenOnce(before, b, "packages to");
      SeenOnce(before, b, "media: ok");
      var installing := WindowHas("Installing p");
      var packages := WindowHas("packages to");
      var media := WindowHas("media: ok");
      if !overlay && (installing || packages) {
        overlay := true;
        mounted := true;
      }
      if !mounted && (media || installing || packages) {
        mounted := true;
      }
    }

    /** Appends as much of the text as the queue has room for. */
    method Enqueue(text: string)
      requires Valid()
      modifies this`qn, q
      ensures Valid()
      ensures var room := QCAP - |old(Queue())|;
              Queue() == old(Queue()) + text[..if |text| < room then |text| else room]
    {
      var k := 0;
      ghost var was := Queue();
      while k < |text| && qn < QCAP
        invariant 0 <= k <= |text| && Valid() && |was| + k == qn
        invariant Queue() == was + text[..k]
      {
        Append(text[k]);
        k := k + 1;
        assert text[..k] == text[..k - 1] + [text[k - 1]];
      }
    }

    method Append(b: char)
      requires Valid() && qn < QCAP
      modifies this`qn, q
      ensures Valid() && Queue() == old(Queue()) + [b]
    {
      q[Slot(qh, qn)] := b;
      qn := qn + 1;
    }

    method TakeRx() returns (r: Option<char>)
      requires Valid()
      modifies this`qh, this`qn
      ensures Valid()
      ensures old(Queue()) == "" ==> r == None && Queue() == ""
      ensures old(Queue()) != "" ==> r == Some(old(Queue())[0]) && Queue() == old(Queue())[1..]
    {
      if qn == 0 {
        return None;
      }
      ghost var was := Queue();
      r := Some(q[qh]);
      assert q[qh] == was[0];
      qh := Slot(qh, 1);
      qn := qn - 1;
      assert Queue() == was[1..];
    }

    method ShellPrompt() returns (r: bool)
      requires Valid()
      ensures r <==> IsShell(stream)
    {
      r := EndsWith(SHELL);
      if !r {
        r := EndsWith(SHELL_ROOT);
      }
    }

    method YesPrompt() returns (r: bool)
      requires Valid()
      ensures r <==> IsYes(stream)
    {
      hide Ends;
      var round := EndsWith("(y/n)");
      var roundUp := EndsWith("(y/N)");
      var square := EndsWith("[y/N]");
      var squareLow := EndsWith("[y/n]");
      var squareYes := EndsWith("[Y/n]");
      var squareUp := EndsWith("[Y/N]");
      return round || roundUp || square || squareLow || squareYes || squareUp;
    }

    method WithholdOrSetup(p: Policy) returns (r: Option<Reply>)
      modifies this`phase, this`withheld
      ensures (Now(), r) == SetupOrWithhold(old(Now()), p)
    {
      if p.quiet {
        phase := Done;
        return None;
      }
      if p.guestsIso {
        withheld := Some(true);
        phase := Done;
        return None;
      }
      if p.wipeAllowed {
        phase := Confirming;
        return Some(Setup);
      }
      withheld := Some(false);
      phase := Done;
      return None;
    }

    /** Hands the note over, once. */
    method TakeWithheld() returns (r: Option<bool>)
      modifies this`withheld
      ensures r == old(withheld) && Now() == old(Now()).(withheld := None)
    {
      r := withheld;
      withheld := None;
    }

    method AnswerLogin(p: Policy) returns (r: Option<Reply>)
      requires Valid()
      modifies this`phase, this`grubSent, this`mountSent, this`withheld
      ensures Valid() && (Now(), r) == OnLogin(old(Now()), stream, p)
    {
      hide Ends, Window;
      var grub := EndsWith(GRUB);
      var login := EndsWith(LOGIN);
      var root := EndsWith(SHELL_ROOT);
      var shell := EndsWith(SHELL);
      r := None;
      if !p.quiet && !grubSent && grub {
        grubSent := true;
        r := Some(Enter);
      } else if !p.quiet && login {
        phase := AtShell;
        r := Some(Root);
      } else if !second && root {
        if !mountSent {
          r := Some(MountExit);
        }
        mountSent := true;
      } else if !second && shell {
        r := WithholdOrSetup(p);
      }
    }

    method AnswerConfirm() returns (r: Option<Reply>)
      requires Valid()
      modifies this`phase, this`nextYesIsNo, this`yesLeft
      ensures Valid() && (Now(), r) == OnConfirm(old(Now()), stream)
    {
      hide Ends, Window, IsYes;
      var reboot := EndsWith(PLEASE_REBOOT);
      var noDisk := EndsWith(NO_DISK);
      var yes := YesPrompt();
      var disk := EndsWith(DISK_Q);
      var use := EndsWith(USE_Q);
      var loader := EndsWith(BOOTLOADER_Q);
      r := None;
      if reboot {
        phase := Installed;
      } else if noDisk {
        nextYesIsNo := true;
      } else if yes {
        if nextYesIsNo {
          nextYesIsNo := false;
          r := Some(No);
        } else if yesLeft > 0 {
          yesLeft := yesLeft - 1;
          r := Some(Yes);
        }
      } else if disk {
        r := Some(Disk);
      } else if use {
        r := Some(Sys);
      } else if loader {
        phase := Done;
        r := Some(Bootloader);
      }
    }

    /** What this byte draws, before it is queued. */
    method Answer(p: Policy) returns (r: Option<Reply>)
      requires Valid()
      modifies this`phase, this`grubSent, this`mountSent, this`nextYesIsNo, this`yesLeft, this`rebootSent, this`withheld
      ensures Valid() && (Now(), r) == React(old(Now()), stream, p)
    {
      hide Ends, Window;
      r := None;
      match phase {
        case AtLogin => r := AnswerLogin(p);
        case AtShell =>
          var shell := ShellPrompt();
          if shell && second {
            phase := Done;
            r := Some(Prove);
          } else if shell {
            r := WithholdOrSetup(p);
          }
        case Confirming => r := AnswerConfirm();
        case Done =>
          var reboot := EndsWith(PLEASE_REBOOT);
          if reboot {
            phase := Installed;
          }
        case Installed =>
          var shell := ShellPrompt();
          if shell {
            if !rebootSent {
              r := Some(Reboot);
            }
            rebootSent := true;
            phase := Done;
          }
      }
    }

    /** Observes one byte of guest output. How each reply is worded is a
        parameter. */
    method NoteTx(b: char, p: Policy, wording: map<Reply, string>) returns (r: Option<Reply>)
      requires Valid() && Marked() && forall x: Reply :: x in wording
      modifies this, win, q
      ensures Valid() && Marked() && stream == old(stream) + [b]
      ensures (Now(), r) == React(old(Now()), stream, p)
      ensures r.None? ==> Queue() == old(Queue())
      ensures r.Some? ==> var text := wording[r.value];
                          var room := QCAP - |old(Queue())|;
                          Queue() == old(Queue()) + text[..if |text| < room then |text| else room]
    {
      hide React, Overlay, Mounted, Window;
      Push(b);
      MarkProgress(old(stream), b);
      r := Answer(p);
      if r.Some? {
        Enqueue(wording[r.value]);
      }
    }
  }
}
