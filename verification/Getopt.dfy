/** The argument permutation of `getopt`: options come to the front, everything else keeps its order behind them. */
module Getopt {

  // ---- The in-place exchange of two adjacent blocks.

  /** Where the element at `x` comes from when blocks of length `k` at `i` and `j` trade places. */
  function Origin(x: int, i: nat, j: nat, k: nat): int {
    if i <= x < i + k then x - i + j else if j <= x < j + k then x - j + i else x
  }

  /** Where the element at `x` comes from when the blocks on the two sides of `middle` change order. */
  function From(x: int, bottom: nat, middle: nat, top: nat): int {
    if bottom <= x < bottom + (top - middle) then x - bottom + middle
    else if bottom + (top - middle) <= x < top then x - (top - middle)
    else x
  }

  /** Swaps two disjoint blocks of equal length. */
  method SwapBlocks<T>(a: array<T>, i: nat, j: nat, len: nat)
    requires i + len <= j && j + len <= a.Length
    modifies a
    ensures forall x :: 0 <= x < a.Length ==> a[x] == old(a[..])[Origin(x, i, j, len)]
  {
    for k := 0 to len
      invariant forall x :: 0 <= x < a.Length ==> a[x] == old(a[..])[Origin(x, i, j, k)]
    {
      a[i + k], a[j + k] := a[j + k], a[i + k];
    }
  }

  /** Swapping the shorter block with the far end of the other leaves a smaller exchange. */
  lemma FromSwapped(x: int, bottom: nat, middle: nat, top: nat)
    requires bottom < middle < top
    ensures top - middle > middle - bottom ==>
      var len := middle - bottom;
      Origin(From(x, bottom, middle, top - len), bottom, top - len, len) == From(x, bottom, middle, top)
    ensures top - middle <= middle - bottom ==>
      var len := top - middle;
      Origin(From(x, bottom + len, middle, top), bottom, middle, len) == From(x, bottom, middle, top)
  {
  }

  /** `s` with the block between `first` and `last` moved behind the one between `last` and `optind`. */
  ghost function Turned<T>(s: seq<T>, first: nat, last: nat, optind: nat): seq<T>
    requires first <= last <= optind <= |s|
  {
    s[..first] + s[last..optind] + s[first..last] + s[optind..]
  }

  lemma TurnedFrom<T>(s: seq<T>, t: seq<T>, first: nat, last: nat, optind: nat)
    requires first <= last <= optind <= |s| == |t|
    requires forall x :: 0 <= x < |t| ==> t[x] == s[From(x, first, last, optind)]
    ensures t == Turned(s, first, last, optind)
  {
  }

  lemma NothingToTurn<T>(s: seq<T>, first: nat, last: nat, optind: nat)
    requires first <= last <= optind <= |s| && first == last
    ensures Turned(s, first, last, optind) == s
  {
  }

  /** The first block is the shorter one: it goes to its final place. */
  method MoveUpper<T>(a: array<T>, bottom: nat, middle: nat, top: nat)
    requires bottom < middle < top <= a.Length && top - middle > middle - bottom
    modifies a
    ensures forall x :: 0 <= x < a.Length ==>
        a[From(x, bottom, middle, top - (middle - bottom))] == old(a[..])[From(x, bottom, middle, top)]
  {
    var len := middle - bottom;
    SwapBlocks(a, bottom, top - len, len);
    forall x | 0 <= x < a.Length
      ensures a[From(x, bottom, middle, top - len)] == old(a[..])[From(x, bottom, middle, top)]
    {
      FromSwapped(x, bottom, middle, top);
    }
  }

  /** The second block is not the longer one: it goes to its final place. */
  method MoveLower<T>(a: array<T>, bottom: nat, middle: nat, top: nat)
    requires bottom < middle < top <= a.Length && top - middle <= middle - bottom
    modifies a
    ensures forall x :: 0 <= x < a.Length ==>
        a[From(x, bottom + (top - middle), middle, top)] == old(a[..])[From(x, bottom, middle, top)]
  {
    var len := top - middle;
    SwapBlocks(a, bottom, middle, len);
    forall x | 0 <= x < a.Length
      ensures a[From(x, bottom + len, middle, top)] == old(a[..])[From(x, bottom, middle, top)]
    {
      FromSwapped(x, bottom, middle, top);
    }
  }

  method Exchange<T>(a: array<T>, first: nat, last: nat, optind: nat)
    requires first <= last <= optind <= a.Length
    modifies a
    ensures a[..] == Turned(old(a[..]), first, last, optind)
  {
    var bottom, middle, top := first, last, optind;
    while top > middle && middle > bottom
      invariant first <= bottom <= middle <= top <= optind
      invariant forall x :: 0 <= x < a.Length ==>
          a[From(x, bottom, middle, top)] == old(a[..])[From(x, first, last, optind)]
      decreases top - bottom
    {
      if top - middle > middle - bottom {
        MoveUpper(a, bottom, middle, top);
        top := top - (middle - bottom);
      } else {
        MoveLower(a, bottom, middle, top);
        bottom := bottom + (top - middle);
      }
    }
    TurnedFrom(old(a[..]), a[..], first, last, optind);
  }

  // ---- The scan.

  predicate IsOption(s: string) { |s| >= 2 && s[0] == '-' }

  /** What a command line means: the options with their arguments, in order, up to and including "--", and all else.
      `takes` tells which options use the next word as their argument. */
  datatype Parts = Parts(options: seq<string>, others: seq<string>)

  function Split(words: seq<string>, takes: string -> bool): Parts {
    if words == [] then Parts([], [])
    else if words[0] == "--" then Parts(["--"], words[1..])
    else if !IsOption(words[0]) then
      var rest := Split(words[1..], takes);
      Parts(rest.options, [words[0]] + rest.others)
    else
      var n := Uses(words, takes);
      var rest := Split(words[n..], takes);
      Parts(words[..n] + rest.options, rest.others)
  }

  /** The number of words an option takes up; an argument may be missing at the end. */
  function Uses(words: seq<string>, takes: string -> bool): (n: nat)
    requires words != []
    ensures 1 <= n <= 2 && n <= |words|
  {
    if takes(words[0]) && |words| > 1 then 2 else 1
  }

  lemma {:induction false} SplitPermutes(words: seq<string>, takes: string -> bool)
    ensures multiset(Split(words, takes).options) + multiset(Split(words, takes).others) == multiset(words)
    decreases |words|
  {
    if words == [] {
    } else if words[0] == "--" || !IsOption(words[0]) {
      assert words == [words[0]] + words[1..];
      if words[0] != "--" { SplitPermutes(words[1..], takes); }
    } else {
      var n := Uses(words, takes);
      assert words == words[..n] + words[n..];
      SplitPermutes(words[n..], takes);
    }
  }

  /** The sorted command line is a permutation of the given one. */
  lemma SortedPermutes(words: seq<string>, takes: string -> bool)
    requires words != []
    ensures multiset([words[0]] + Split(words[1..], takes).options + Split(words[1..], takes).others) == multiset(words)
  {
    SplitPermutes(words[1..], takes);
    assert words == [words[0]] + words[1..];
  }

  // ---- Which words are in front, told by their places.

  /** Word `i` is an argument: the word before it is an option that takes one, and is no argument itself. */
  predicate IsArgument(words: seq<string>, takes: string -> bool, i: nat)
    requires i <= |words|
  {
    && i > 0 && IsOption(words[i - 1]) && words[i - 1] != "--" && takes(words[i - 1])
    && !IsArgument(words, takes, i - 1)
  }

  /** A "--" that is no argument stands before word `i`. */
  ghost predicate IsBehind(words: seq<string>, takes: string -> bool, i: nat)
    requires i <= |words|
  {
    exists j: nat :: j < i && words[j] == "--" && !IsArgument(words, takes, j)
  }

  ghost predicate InFront(words: seq<string>, takes: string -> bool, i: nat)
    requires i < |words|
  {
    !IsBehind(words, takes, i) && (IsOption(words[i]) || IsArgument(words, takes, i))
  }

  /** `a` lists increasing places from `low` on, and `words` has `picked` at them. */
  ghost predicate Lists(a: seq<nat>, low: nat, words: seq<string>, picked: seq<string>) {
    && |a| == |picked|
    && (forall i :: 0 <= i < |a| ==> low <= a[i] < |words| && picked[i] == words[a[i]])
    && (forall i, j :: 0 <= i < j < |a| ==> a[i] < a[j])
  }

  /** From place `k` on, `front` and `back` are the places in front and the others. */
  ghost predicate Places(words: seq<string>, takes: string -> bool, k: nat, front: seq<nat>, back: seq<nat>) {
    forall i: nat :: k <= i < |words| ==>
      (i in front <==> InFront(words, takes, i)) && (i in back <==> !InFront(words, takes, i))
  }

  lemma ListsMore(a: seq<nat>, low: nat, words: seq<string>, picked: seq<string>)
    requires Lists(a, low + 1, words, picked) && low < |words|
    ensures Lists([low] + a, low, words, [words[low]] + picked)
  {
  }

  /** A word that is no "--" puts nothing behind it. */
  lemma StillBefore(words: seq<string>, takes: string -> bool, k: nat)
    requires k < |words| && !IsBehind(words, takes, k)
    requires words[k] != "--" || IsArgument(words, takes, k)
    ensures !IsBehind(words, takes, k + 1)
  {
  }

  /** Behind "--" nothing comes in front. */
  lemma RestBehind(words: seq<string>, takes: string -> bool, k: nat) returns (back: seq<nat>)
    requires k < |words| && words[k] == "--" && !IsBehind(words, takes, k) && !IsArgument(words, takes, k)
    ensures Lists(back, k + 1, words, words[k + 1..]) && Places(words, takes, k, [k], back)
  {
    back := seq(|words| - k - 1, i => k + 1 + i);
    forall i: nat | k < i < |words|
      ensures i in back && !InFront(words, takes, i)
    {
      assert back[i - k - 1] == i;
      assert IsBehind(words, takes, i);
    }
  }

  /** One more place in front. */
  lemma PlacesFront(words: seq<string>, takes: string -> bool, k: nat, front: seq<nat>, back: seq<nat>)
    requires k < |words| && InFront(words, takes, k) && Places(words, takes, k + 1, front, back) && k !in back
    ensures Places(words, takes, k, [k] + front, back)
  {
  }

  /** One more place among the others. */
  lemma PlacesBack(words: seq<string>, takes: string -> bool, k: nat, front: seq<nat>, back: seq<nat>)
    requires k < |words| && !InFront(words, takes, k) && Places(words, takes, k + 1, front, back) && k !in front
    ensures Places(words, takes, k, front, [k] + back)
  {
  }

  /** What the part from place `k` on is made of. */
  lemma SplitStep(words: seq<string>, takes: string -> bool, k: nat)
    requires k < |words| && words[k] != "--"
    ensures !IsOption(words[k]) ==>
      Split(words[k..], takes) ==
        Parts(Split(words[k + 1..], takes).options, [words[k]] + Split(words[k + 1..], takes).others)
    ensures IsOption(words[k]) && !(takes(words[k]) && k + 1 < |words|) ==>
      Split(words[k..], takes) ==
        Parts([words[k]] + Split(words[k + 1..], takes).options, Split(words[k + 1..], takes).others)
    ensures IsOption(words[k]) && takes(words[k]) && k + 1 < |words| ==>
      Split(words[k..], takes) ==
        Parts([words[k]] + ([words[k + 1]] + Split(words[k + 2..], takes).options), Split(words[k + 2..], takes).others)
  {
    var rest := words[k..];
    assert rest[1..] == words[k + 1..] && rest[..1] == [words[k]];
    if k + 1 < |words| {
      assert rest[2..] == words[k + 2..] && rest[..2] == [words[k]] + [words[k + 1]];
    }
  }

  lemma {:induction false} SplitFrom(words: seq<string>, takes: string -> bool, k: nat)
      returns (front: seq<nat>, back: seq<nat>)
    requires k <= |words| && !IsBehind(words, takes, k) && !IsArgument(words, takes, k)
    ensures Lists(front, k, words, Split(words[k..], takes).options)
    ensures Lists(back, k, words, Split(words[k..], takes).others)
    ensures Places(words, takes, k, front, back)
    decreases |words| - k, 1
  {
    if k == |words| {
      front, back := [], [];
    } else if words[k] == "--" {
      front := [k];
      back := RestBehind(words, takes, k);
      assert words[k..][1..] == words[k + 1..];
    } else {
      SplitStep(words, takes, k);
      StillBefore(words, takes, k);
      if !IsOption(words[k]) {
        front, back := SplitFrom(words, takes, k + 1);
        PlacesBack(words, takes, k, front, back);
        ListsMore(back, k, words, Split(words[k + 1..], takes).others);
        back := [k] + back;
      } else if takes(words[k]) && k + 1 < |words| {
        front, back := SplitArgument(words, takes, k);
      } else if takes(words[k]) {
        front, back := [k], [];
      } else {
        front, back := SplitFrom(words, takes, k + 1);
        PlacesFront(words, takes, k, front, back);
        ListsMore(front, k, words, Split(words[k + 1..], takes).options);
        front := [k] + front;
      }
    }
  }

  lemma {:induction false} SplitArgument(words: seq<string>, takes: string -> bool, k: nat)
      returns (front: seq<nat>, back: seq<nat>)
    requires k + 1 < |words| && !IsBehind(words, takes, k + 1) && !IsArgument(words, takes, k)
    requires IsOption(words[k]) && words[k] != "--" && takes(words[k])
    ensures Lists(front, k, words, [words[k]] + ([words[k + 1]] + Split(words[k + 2..], takes).options))
    ensures Lists(back, k, words, Split(words[k + 2..], takes).others)
    ensures Places(words, takes, k, front, back)
    decreases |words| - k, 0
  {
    StillBefore(words, takes, k + 1);
    front, back := SplitFrom(words, takes, k + 2);
    PlacesFront(words, takes, k + 1, front, back);
    PlacesFront(words, takes, k, [k + 1] + front, back);
    ListsMore(front, k + 1, words, Split(words[k + 2..], takes).options);
    front := [k + 1] + front;
    ListsMore(front, k, words, [words[k + 1]] + Split(words[k + 2..], takes).options);
    front := [k] + front;
  }

  /** The options part is, in order, the words at the places in front: options, their arguments and the first "--" that
      is no argument; the others are the words at all other places, in order. */
  lemma SplitByPlace(words: seq<string>, takes: string -> bool) returns (front: seq<nat>, back: seq<nat>)
    ensures Lists(front, 0, words, Split(words, takes).options)
    ensures Lists(back, 0, words, Split(words, takes).others)
    ensures Places(words, takes, 0, front, back)
  {
    front, back := SplitFrom(words, takes, 0);
    assert words[0..] == words;
  }

  /** A worked example: "-" is no option, "-o" takes the next word, and "--" ends the options. */
  lemma SplitExample(takes: string -> bool)
    requires takes("-o")
    ensures Split(["-", "-o", "-x", "--", "-v"], takes) == Parts(["-o", "-x", "--"], ["-", "-v"])
  {
    var words := ["-", "-o", "-x", "--", "-v"];
    assert words[0..] == words;
    SplitStep(words, takes, 0);
    SplitStep(words, takes, 1);
    assert words[3..] == ["--", "-v"];
    assert words[3..][1..] == ["-v"];
  }

  /** The words in front of `first` and from `last` to `optind` are options, those between are others, and the rest
      is still to be looked at. */
  ghost predicate Stands(s: seq<string>, goal: Parts, first: nat, last: nat, optind: nat, takes: string -> bool) {
    && 1 <= first <= last <= optind <= |s|
    && goal.options == s[1..first] + s[last..optind] + Split(s[optind..], takes).options
    && goal.others == s[first..last] + Split(s[optind..], takes).others
  }

  lemma ExchangeKeeps(s: seq<string>, goal: Parts, first: nat, last: nat, optind: nat, takes: string -> bool)
    requires Stands(s, goal, first, last, optind, takes)
    ensures Stands(Turned(s, first, last, optind), goal, first + (optind - last), optind, optind, takes)
  {
    var t, f := Turned(s, first, last, optind), first + (optind - last);
    assert t[1..f] == s[1..first] + s[last..optind];
    assert t[f..optind] == s[first..last] && t[optind..] == s[optind..];
    assert t[optind..optind] == [];
  }

  /** Without others in between there is nothing to exchange. */
  lemma JoinKeeps(s: seq<string>, goal: Parts, first: nat, last: nat, optind: nat, takes: string -> bool)
    requires Stands(s, goal, first, last, optind, takes) && (first == last || last == optind)
    ensures first == last ==> Stands(s, goal, optind, optind, optind, takes)
  {
    if first == last {
      assert s[1..optind] == s[1..first] + s[last..optind];
      assert s[first..last] == s[optind..optind] == [];
    }
  }

  lemma SkipKeeps(s: seq<string>, goal: Parts, first: nat, optind: nat, takes: string -> bool)
    requires Stands(s, goal, first, optind, optind, takes) && optind < |s| && !IsOption(s[optind])
    ensures Stands(s, goal, first, optind + 1, optind + 1, takes)
  {
    assert s[optind..][1..] == s[optind + 1..];
    assert s[first..optind] + [s[optind]] == s[first..optind + 1];
    assert s[optind..optind] == s[optind + 1..optind + 1] == [];
  }

  lemma Regroup<T>(a: seq<T>, b: seq<T>, c: seq<T>)
    ensures a + b + c == a + (b + c)
  {
  }

  lemma ConsumeKeeps(s: seq<string>, goal: Parts, first: nat, optind: nat, takes: string -> bool)
    requires Stands(s, goal, first, optind, optind, takes) && optind < |s| && IsOption(s[optind]) && s[optind] != "--"
    ensures Stands(s, goal, first, optind, optind + Uses(s[optind..], takes), takes)
  {
    var words, n := s[optind..], Uses(s[optind..], takes);
    assert words[..n] == s[optind..optind + n] && words[n..] == s[optind + n..];
    assert Split(words, takes).options == words[..n] + Split(words[n..], takes).options;
    assert s[optind..optind] == [];
    assert s[1..first] + [] == s[1..first];
    Regroup(s[1..first], words[..n], Split(words[n..], takes).options);
  }

  /** Everything behind "--" is taken as it is. */
  lemma EndKeeps(s: seq<string>, goal: Parts, first: nat, optind: nat, takes: string -> bool)
    requires Stands(s, goal, first, optind, optind, takes) && optind < |s| && s[optind] == "--"
    ensures
      var t := Turned(s, first, optind, optind + 1);
      goal.options == t[1..first + 1] && goal.others == t[first + 1..] && t[0] == s[0] && |t| == |s|
  {
    var t := Turned(s, first, optind, optind + 1);
    assert s[optind..optind] == [];
    assert s[optind..][1..] == s[optind + 1..];
    assert t[1..first + 1] == s[1..first] + ["--"];
    assert t[first + 1..] == s[first..optind] + s[optind + 1..];
  }

  class GetoptData {
    const argv: array<string>
    const takes: string -> bool
    var optind: nat
    var first: nat
    var last: nat
    /** What the command line meant at the beginning. */
    ghost const goal: Parts
    ghost const name: string

    ghost predicate Valid()
      reads this, argv
    {
      argv.Length > 0 && argv[0] == name && Stands(argv[..], goal, first, last, optind, takes)
    }

    /** The end of the scan: options in front, in order, all else behind, in order, and `optind` between them. */
    ghost predicate Finished()
      reads this, argv
    {
      argv[..] == [name] + goal.options + goal.others && optind == 1 + |goal.options|
    }

    /** The next word is an option and nothing is waiting to be exchanged. */
    ghost predicate AtOption()
      reads this, argv
    {
      Valid() && last == optind < argv.Length && IsOption(argv[optind]) && argv[optind] != "--"
    }

    constructor (argv: array<string>, takes: string -> bool)
      requires argv.Length > 0
      ensures Valid() && this.argv == argv && this.takes == takes
      ensures goal == Split(argv[1..], takes) && name == argv[0]
    {
      this.argv, this.takes := argv, takes;
      optind, first, last := 1, 1, 1;
      goal, name := Split(argv[1..], takes), argv[0];
      new;
      assert argv[..][1..] == argv[1..] && argv[..][1..1] == [];
    }

    /** Brings the options found by the last call in front of the others. */
    method Gather()
      requires Valid()
      modifies this, argv
      ensures Valid() && last == optind == old(optind)
    {
      if first != last && last != optind {
        ExchangeBlocks();
      } else if last != optind {
        JoinKeeps(argv[..], goal, first, last, optind, takes);
        first := optind;
      }
      last := optind;
    }

    method ExchangeBlocks()
      requires Valid()
      modifies this, argv
      ensures Valid() && last == optind == old(optind)
    {
      ghost var s := argv[..];
      ExchangeKeeps(s, goal, first, last, optind, takes);
      Exchange(argv, first, last, optind);
      assert argv[0] == s[0] && Stands(argv[..], goal, first + (optind - last), optind, optind, takes);
      first, last := first + (optind - last), optind;
    }

    /** Passes over words that are no options. */
    method SkipOthers()
      requires Valid() && last == optind
      modifies this
      ensures Valid() && last == optind >= old(optind) && (optind < argv.Length ==> IsOption(argv[optind]))
    {
      while optind < argv.Length && !IsOption(argv[optind])
        invariant Valid() && last == optind >= old(optind)
        decreases argv.Length - optind
      {
        SkipKeeps(argv[..], goal, first, optind, takes);
        optind, last := optind + 1, optind + 1;
      }
    }

    /** "--" ends the options. */
    method EndOptions()
      requires Valid() && last == optind < argv.Length && argv[optind] == "--"
      modifies this, argv
      ensures Finished()
    {
      EndKeeps(argv[..], goal, first, optind, takes);
      optind := optind + 1;
      if first != last {
        Exchange(argv, first, last, optind);
        first := first + (optind - last);
      } else {
        NothingToTurn(argv[..], first, last, optind);
        first := optind;
      }
      last, optind := argv.Length, argv.Length;
      if first != last { optind := first; }
      AllInOrder(argv[..], goal, first);
    }

    /** The part of a call before an option is looked at; `done` is the answer -1. */
    method Advance() returns (done: bool)
      requires Valid()
      modifies this, argv
      ensures done ==> Finished()
      ensures !done ==> AtOption() && optind >= old(optind)
    {
      Gather();
      SkipOthers();
      if optind != argv.Length && argv[optind] == "--" {
        EndOptions();
        return true;
      }
      done := optind == argv.Length;
      if done {
        NothingLeft(argv[..], goal, first, optind, takes);
        AllInOrder(argv[..], goal, first);
        if first != last { optind := first; }
      }
    }

    /** The option at `optind` is used up, with its argument if it takes one. */
    method Consume()
      requires AtOption()
      modifies this`optind
      ensures Valid()
      ensures
        var needed := takes(argv[old(optind)]) && old(optind) + 1 < argv.Length;
        optind == old(optind) + (if needed then 2 else 1)
    {
      ConsumeKeeps(argv[..], goal, first, optind, takes);
      var needed := takes(argv[optind]);
      optind := optind + 1;
      if needed && optind < argv.Length {
        optind := optind + 1;
      }
    }
  }

  lemma AllInOrder(s: seq<string>, goal: Parts, first: nat)
    requires 1 <= first <= |s| && goal.options == s[1..first] && goal.others == s[first..]
    ensures s == [s[0]] + goal.options + goal.others
  {
  }

  lemma NothingLeft(s: seq<string>, goal: Parts, first: nat, optind: nat, takes: string -> bool)
    requires Stands(s, goal, first, optind, optind, takes) && optind == |s|
    ensures goal.options == s[1..first] && goal.others == s[first..]
  {
    assert s[optind..] == [] && s[optind..optind] == [] && s[first..optind] == s[first..];
  }

  /** A whole run of calls sorts the words stably into options and others, and stops between them. */
  method Permute(argv: array<string>, takes: string -> bool) returns (optind: nat)
    requires argv.Length > 0
    modifies argv
    ensures argv[..] == [old(argv[0])] + Split(old(argv[1..]), takes).options + Split(old(argv[1..]), takes).others
    ensures optind == 1 + |Split(old(argv[1..]), takes).options|
  {
    var d := new GetoptData(argv, takes);
    var done := d.Advance();
    while !done
      invariant fresh(d) && d.argv == argv && d.name == old(argv[0]) && d.goal == Split(old(argv[1..]), takes)
      invariant if done then d.Finished() else d.AtOption()
      decreases !done, argv.Length - d.optind
    {
      d.Consume();
      done := d.Advance();
    }
    optind := d.optind;
  }
}
