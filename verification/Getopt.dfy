/** The argument permutation of getopt (lib/getopt.c, ordering == PERMUTE). */
module Getopt {

  // ----- exchange()

  /** Two adjacent blocks of `s`, [bottom, middle) and [middle, top), change places. */
  function Rotated<T>(s: seq<T>, bottom: nat, middle: nat, top: nat): (r: seq<T>)
    requires bottom <= middle <= top <= |s|
    ensures |r| == |s|
  {
    s[..bottom] + s[middle..top] + s[bottom..middle] + s[top..]
  }

  /** Two blocks of equal length change places. */
  function Swapped<T>(s: seq<T>, i: nat, j: nat, len: nat): (r: seq<T>)
    requires i + len <= j && j + len <= |s|
    ensures |r| == |s|
  {
    s[..i] + s[j..j + len] + s[i + len..j] + s[i..i + len] + s[j + len..]
  }

  /** The short bottom block goes to the far end: the rest is a smaller rotation. */
  lemma SwapBottom<T>(s: seq<T>, bottom: nat, middle: nat, top: nat)
    requires bottom <= middle <= top <= |s| && top - middle > middle - bottom
    ensures var len := middle - bottom;
            Rotated(Swapped(s, bottom, top - len, len), bottom, middle, top - len) == Rotated(s, bottom, middle, top)
  {
    var len := middle - bottom;
    var r := Swapped(s, bottom, top - len, len);
    assert r[top - len..] == s[bottom..middle] + s[top..] by {
      assert r == (s[..bottom] + s[top - len..top] + s[middle..top - len]) + (s[bottom..middle] + s[top..]);
    }
    assert r[..bottom] == s[..bottom] && r[middle..top - len] == s[middle..top - len] && r[bottom..middle] == s[top - len..top];
    hide Swapped;
    RotatedParts(s, r, bottom, middle, top, len);
  }

  lemma RotatedParts<T>(s: seq<T>, r: seq<T>, bottom: nat, middle: nat, top: nat, len: nat)
    requires bottom <= middle <= top - len <= top <= |s| == |r|
    requires r[..bottom] == s[..bottom] && r[middle..top - len] == s[middle..top - len]
    requires r[bottom..middle] == s[top - len..top] && r[top - len..] == s[bottom..middle] + s[top..]
    ensures Rotated(r, bottom, middle, top - len) == Rotated(s, bottom, middle, top)
  {
    assert s[middle..top] == s[middle..top - len] + s[top - len..top];
  }

  lemma SwapTop<T>(s: seq<T>, bottom: nat, middle: nat, top: nat)
    requires bottom <= middle <= top <= |s| && top - middle <= middle - bottom
    ensures var len := top - middle;
            Rotated(Swapped(s, bottom, middle, len), bottom + len, middle, top) == Rotated(s, bottom, middle, top)
  {
    var len := top - middle;
    var r := Swapped(s, bottom, middle, len);
    assert r[..bottom + len] == s[..bottom] + s[middle..top];
    assert r[middle..top] == s[bottom..bottom + len];
    assert r[bottom + len..middle] == s[bottom + len..middle];
    assert r[top..] == s[top..];
    assert s[bottom..middle] == s[bottom..bottom + len] + s[bottom + len..middle];
  }

  lemma SwappedAt<T>(s: seq<T>, i: nat, j: nat, len: nat, n: nat)
    requires i + len <= j && j + len <= |s| && n < |s|
    ensures Swapped(s, i, j, len)[n] == if i <= n < i + len then s[j + n - i] else if j <= n < j + len then s[i + n - j] else s[n]
  {
  }

  lemma SwappedNext<T>(s: seq<T>, i: nat, j: nat, k: nat)
    requires i + k < j && j + k < |s|
    ensures var r := Swapped(s, i, j, k);
            r[i + k] == s[i + k] && r[j + k] == s[j + k]
            && Swapped(s, i, j, k + 1) == r[i + k := s[j + k]][j + k := s[i + k]]
  {
    hide Swapped;
    SwappedAt(s, i, j, k, i + k);
    SwappedAt(s, i, j, k, j + k);
    var r, t := Swapped(s, i, j, k)[i + k := s[j + k]][j + k := s[i + k]], Swapped(s, i, j, k + 1);
    forall n | 0 <= n < |s| ensures t[n] == r[n] {
      SwappedAt(s, i, j, k, n);
      SwappedAt(s, i, j, k + 1, n);
    }
  }

  method SwapBlocks<T>(a: array<T>, i: nat, j: nat, len: nat)
    requires i + len <= j && j + len <= a.Length
    modifies a
    ensures a[..] == Swapped(old(a[..]), i, j, len)
  {
    ghost var s := a[..];
    var k := 0;
    assert Swapped(s, i, j, 0) == s;
    while k < len
      invariant 0 <= k <= len
      invariant a[..] == Swapped(s, i, j, k)
    {
      SwappedNext(s, i, j, k);
      var tem := a[i + k];
      a[i + k] := a[j + k];
      a[j + k] := tem;
      assert a[..] == Swapped(s, i, j, k)[i + k := s[j + k]][j + k := s[i + k]];
      k := k + 1;
    }
  }

  /** exchange(), without its update of the indices. */
  method Exchange<T>(a: array<T>, firstNonopt: nat, lastNonopt: nat, optind: nat)
    requires firstNonopt <= lastNonopt <= optind <= a.Length
    modifies a
    ensures a[..] == Rotated(old(a[..]), firstNonopt, lastNonopt, optind)
  {
    hide Rotated;
    hide Swapped;
    var bottom: nat, middle: nat, top: nat := firstNonopt, lastNonopt, optind;
    while top > middle && middle > bottom
      invariant bottom <= middle <= top <= a.Length
      invariant Rotated(a[..], bottom, middle, top) == Rotated(old(a[..]), firstNonopt, lastNonopt, optind)
      decreases top - bottom
    {
      ghost var s := a[..];
      if top - middle > middle - bottom {
        SwapBottom(s, bottom, middle, top);
        var len := middle - bottom;
        SwapBlocks(a, bottom, top - len, len);
        top := top - len;
      } else {
        SwapTop(s, bottom, middle, top);
        var len := top - middle;
        SwapBlocks(a, bottom, middle, len);
        bottom := bottom + len;
      }
    }
    RotatedByNothing(a[..], bottom, middle, top);
  }

  lemma RotatedByNothing<T>(s: seq<T>, bottom: nat, middle: nat, top: nat)
    requires bottom <= middle <= top <= |s| && (top == middle || middle == bottom)
    ensures Rotated(s, bottom, middle, top) == s
  {
    assert s[..bottom] + s[bottom..middle] + s[middle..top] + s[top..] == s;
  }

  // ----- what the permutation is to achieve

  /** An option element starts with '-' and is not "-"; the elements of argv hold no NUL. */
  predicate IsOption(arg: string) {
    |arg| >= 2 && arg[0] == '-'
  }

  /** How many elements an option uses up: `wide` ones take the next element as their argument. */
  function Width(wide: string -> bool, args: seq<string>): (n: nat)
    requires args != []
    ensures 1 <= n <= |args|
  {
    if wide(args[0]) && |args| > 1 then 2 else 1
  }

  /** The options with their arguments, up to and with "--". */
  function Options(wide: string -> bool, args: seq<string>): seq<string>
  {
    if args == [] then []
    else if args[0] == "--" then ["--"]
    else if IsOption(args[0]) then args[..Width(wide, args)] + Options(wide, args[Width(wide, args)..])
    else Options(wide, args[1..])
  }

  /** Everything else: the elements that are no option, and all that follow "--". */
  function Operands(wide: string -> bool, args: seq<string>): seq<string>
  {
    if args == [] then []
    else if args[0] == "--" then args[1..]
    else if IsOption(args[0]) then Operands(wide, args[Width(wide, args)..])
    else [args[0]] + Operands(wide, args[1..])
  }

  /** `s` is `a` and `b` merged, each in its order. */
  predicate Interleaving<T(==)>(s: seq<T>, a: seq<T>, b: seq<T>) {
    if s == [] then a == [] && b == []
    else
      || (a != [] && s[0] == a[0] && Interleaving(s[1..], a[1..], b))
      || (b != [] && s[0] == b[0] && Interleaving(s[1..], a, b[1..]))
  }

  /** Options and operands are a stable partition of the arguments. */
  lemma {:induction false} PartitionIsStable(wide: string -> bool, args: seq<string>)
    ensures Interleaving(args, Options(wide, args), Operands(wide, args))
    decreases |args|
  {
    if args == [] {
    } else if args[0] == "--" {
      AllSecond(args[1..]);
    } else if IsOption(args[0]) {
      var n := Width(wide, args);
      PartitionIsStable(wide, args[n..]);
      FirstsMerged(args, n, Options(wide, args[n..]), Operands(wide, args[n..]));
    } else {
      PartitionIsStable(wide, args[1..]);
    }
  }

  lemma {:induction false} AllSecond<T>(s: seq<T>)
    ensures Interleaving(s, [], s)
  {
    if s != [] {
      AllSecond(s[1..]);
    }
  }

  lemma {:induction false} FirstsMerged<T>(s: seq<T>, n: nat, a: seq<T>, b: seq<T>)
    requires n <= |s| && Interleaving(s[n..], a, b)
    ensures Interleaving(s, s[..n] + a, b)
  {
    if n == 0 {
      assert s[0..] == s && s[..0] + a == a;
    } else {
      assert s[1..][n - 1..] == s[n..] && s[1..][..n - 1] == s[1..n];
      FirstsMerged(s[1..], n - 1, a, b);
      assert (s[..n] + a)[1..] == s[1..n] + a;
    }
  }

  /** Leading operands are skipped one by one. */
  lemma {:induction false} SkipOperands(wide: string -> bool, args: seq<string>, n: nat)
    requires n <= |args| && forall k :: 0 <= k < n ==> !IsOption(args[k])
    ensures Options(wide, args) == Options(wide, args[n..])
    ensures Operands(wide, args) == args[..n] + Operands(wide, args[n..])
  {
    hide Options, Operands, IsOption;
    if n == 0 {
      assert args[0..] == args && args[..0] == [];
      assert [] + Operands(wide, args) == Operands(wide, args);
    } else {
      var rest := args[1..];
      FirstOperand(wide, args);
      forall k | 0 <= k < n - 1 ensures !IsOption(rest[k]) {
        assert rest[k] == args[k + 1];
      }
      SkipOperands(wide, rest, n - 1);
      assert rest[n - 1..] == args[n..] && args[..n] == [args[0]] + rest[..n - 1];
      assert [args[0]] + (rest[..n - 1] + Operands(wide, args[n..])) == args[..n] + Operands(wide, args[n..]);
    }
  }

  lemma EndOfArguments(wide: string -> bool, args: seq<string>)
    ensures args == [] ==> Options(wide, args) == [] && Operands(wide, args) == []
    ensures args != [] && args[0] == "--" ==> Options(wide, args) == ["--"] && Operands(wide, args) == args[1..]
  {
  }

  lemma FirstOperand(wide: string -> bool, args: seq<string>)
    requires args != [] && !IsOption(args[0])
    ensures Options(wide, args) == Options(wide, args[1..])
    ensures Operands(wide, args) == [args[0]] + Operands(wide, args[1..])
  {
    assert IsOption("--");
  }

  lemma SkippedOperands(wide: string -> bool, s: seq<string>, first: nat, start: nat, stop: nat)
    requires 1 <= first <= start <= stop <= |s| && forall k :: start <= k < stop ==> !IsOption(s[k])
    ensures s[1..first] + s[stop..stop] + Options(wide, s[stop..]) == s[1..first] + Options(wide, s[start..])
    ensures s[first..stop] + Operands(wide, s[stop..]) == s[first..start] + Operands(wide, s[start..])
  {
    hide *;
    var rest := s[start..];
    SkipOperands(wide, rest, stop - start);
    assert rest[stop - start..] == s[stop..];
    assert s[first..stop] == s[first..start] + rest[..stop - start];
    assert s[1..first] + s[stop..stop] == s[1..first];
  }

  // ----- the scan

  class Scanner {
    const argv: array<string>
    const wide: string -> bool
    var optind: nat
    var firstNonopt: nat
    var lastNonopt: nat

    ghost predicate Valid()
      reads this
    {
      1 <= firstNonopt <= lastNonopt <= optind <= argv.Length
    }

    /** The options scanned so far: those already moved to the front, and those since. */
    ghost function OptionsSoFar(): seq<string>
      requires Valid()
      reads this, argv
    {
      argv[1..firstNonopt] + argv[lastNonopt..optind]
    }

    ghost function OperandsSoFar(): seq<string>
      requires Valid()
      reads this, argv
    {
      argv[firstNonopt..lastNonopt]
    }

    /** All options, and all operands, of what was scanned and what is still to come. */
    ghost function AllOptions(): seq<string>
      requires Valid()
      reads this, argv
    {
      OptionsSoFar() + Options(wide, argv[optind..])
    }

    ghost function AllOperands(): seq<string>
      requires Valid()
      reads this, argv
    {
      OperandsSoFar() + Operands(wide, argv[optind..])
    }

    /** _getopt_initialize(). */
    constructor (argv: array<string>, wide: string -> bool)
      requires argv.Length >= 1
      ensures Valid() && this.argv == argv && this.wide == wide
      ensures AllOptions() == Options(wide, argv[1..]) && AllOperands() == Operands(wide, argv[1..])
    {
      this.argv, this.wide := argv, wide;
      optind, firstNonopt, lastNonopt := 1, 1, 1;
    }

    /** exchange(). */
    method ExchangeBlocks()
      requires Valid()
      modifies this, argv
      ensures Valid() && optind == old(optind) && lastNonopt == optind
      ensures argv[0] == old(argv[0]) && argv[optind..] == old(argv[optind..])
      ensures argv[1..firstNonopt] == old(OptionsSoFar()) && argv[firstNonopt..lastNonopt] == old(OperandsSoFar())
    {
      ghost var s := argv[..];
      Exchange(argv, firstNonopt, lastNonopt, optind);
      firstNonopt := firstNonopt + (optind - lastNonopt);
      lastNonopt := optind;
      RotatedSlices(s, argv[..], old(firstNonopt), old(lastNonopt), optind);
    }

    /** Exchanges what was scanned since the last call. */
    method Gather()
      requires Valid()
      modifies this, argv
      ensures 1 <= firstNonopt <= optind == old(optind) <= argv.Length
      ensures argv[0] == old(argv[0]) && argv[optind..] == old(argv[optind..])
      ensures argv[1..firstNonopt] == old(OptionsSoFar()) && argv[firstNonopt..optind] == old(OperandsSoFar())
    {
      if firstNonopt != lastNonopt && lastNonopt != optind {
        ExchangeBlocks();
      } else if lastNonopt != optind {
        assert OptionsSoFar() == argv[1..optind];
        firstNonopt := optind;
      }
    }

    /** Skips the next operands. */
    method SkipToOption()
      requires Valid()
      modifies this, argv
      ensures Valid() && lastNonopt == optind && old(optind) <= optind && argv[0] == old(argv[0])
      ensures AllOptions() == old(AllOptions()) && AllOperands() == old(AllOperands())
      ensures optind < argv.Length ==> IsOption(argv[optind])
    {
      hide IsOption, Operands, Options;
      ghost var start := optind;
      Gather();
      ghost var s := argv[..];
      assert s[1..firstNonopt] == old(OptionsSoFar()) && s[firstNonopt..start] == old(OperandsSoFar()) && s[start..] == old(argv[optind..]);
      while optind < argv.Length && !IsOption(argv[optind])
        invariant start <= optind <= argv.Length
        invariant forall k :: start <= k < optind ==> !IsOption(s[k])
        modifies this`optind
      {
        optind := optind + 1;
      }
      lastNonopt := optind;
      SkippedOperands(wide, s, firstNonopt, start, optind);
      assert argv[optind..] == s[optind..] && argv[1..firstNonopt] == s[1..firstNonopt]
        && argv[firstNonopt..optind] == s[firstNonopt..optind] && argv[optind..optind] == s[optind..optind];
    }

    /** Handles "--", and at the end of argv backs up over the operands. */
    method EndOfOptions() returns (eof: bool)
      requires Valid() && lastNonopt == optind
      requires optind < argv.Length ==> IsOption(argv[optind])
      modifies this, argv
      ensures argv[0] == old(argv[0]) && 1 <= optind <= argv.Length
      ensures !eof ==> Valid() && optind == old(optind) < argv.Length && argv[optind] != "--"
      ensures !eof ==> argv[..] == old(argv[..]) && firstNonopt == old(firstNonopt) && lastNonopt == old(lastNonopt)
      ensures eof ==> argv[1..optind] == old(AllOptions()) && argv[optind..] == old(AllOperands())
    {
      ghost var operands := OperandsSoFar();
      ghost var rest := argv[optind..];
      EndOfArguments(wide, rest);
      hide Options;
      hide Operands;
      if optind != argv.Length && argv[optind] == "--" {
        optind := optind + 1;
        if firstNonopt != lastNonopt && lastNonopt != optind {
          ExchangeBlocks();
        } else if firstNonopt == lastNonopt {
          firstNonopt := optind;
        }
        assert argv[optind..] == rest[1..];
        assert argv[1..firstNonopt] == old(argv[1..firstNonopt]) + ["--"] && argv[firstNonopt..optind] == operands;
        assert argv[firstNonopt..] == operands + rest[1..];
        lastNonopt := argv.Length;
        optind := argv.Length;
      }
      if optind == argv.Length {
        if firstNonopt != lastNonopt {
          optind := firstNonopt;
        }
        return true;
      }
      return false;
    }

    /** The head of _getopt_internal, when the current element is used up: moves on to the next option, or
        ends the scan. */
    method Advance() returns (eof: bool)
      requires Valid()
      modifies this, argv
      ensures argv[0] == old(argv[0]) && 1 <= optind <= argv.Length
      ensures !eof ==> Valid() && AllOptions() == old(AllOptions()) && AllOperands() == old(AllOperands())
      ensures !eof ==> optind < argv.Length && IsOption(argv[optind]) && argv[optind] != "--" && old(optind) <= optind
      ensures eof ==> argv[1..optind] == old(AllOptions()) && argv[optind..] == old(AllOperands())
    {
      SkipToOption();
      eof := EndOfOptions();
    }

    /** The rest of _getopt_internal: the option at optind is processed, and its argument if it takes one
        from the next element. */
    method TakeOption()
      requires Valid() && optind < argv.Length && IsOption(argv[optind]) && argv[optind] != "--"
      modifies this`optind
      ensures Valid() && old(optind) < optind
      ensures AllOptions() == old(AllOptions()) && AllOperands() == old(AllOperands())
    {
      ghost var rest := argv[optind..];
      var n := if wide(argv[optind]) && optind + 1 < argv.Length then 2 else 1;
      assert n == Width(wide, rest);
      assert argv[lastNonopt..optind + n] == argv[lastNonopt..optind] + rest[..n];
      optind := optind + n;
      assert argv[optind..] == rest[n..];
    }
  }

  /** A program that calls getopt until EOF: the options come first and the operands from the returned optind
      on, each in their order. */
  method ScanAll(argv: array<string>, wide: string -> bool) returns (optind: nat)
    requires argv.Length >= 1
    modifies argv
    ensures 1 <= optind <= argv.Length && argv[0] == old(argv[0])
    ensures argv[1..optind] == Options(wide, old(argv[1..]))
    ensures argv[optind..] == Operands(wide, old(argv[1..]))
  {
    hide Options, Operands, IsOption;
    var scanner := new Scanner(argv, wide);
    var eof := scanner.Advance();
    while !eof
      invariant !eof ==> scanner.Valid() && scanner.optind < argv.Length
      invariant !eof ==> IsOption(argv[scanner.optind]) && argv[scanner.optind] != "--"
      invariant !eof ==> scanner.AllOptions() == Options(wide, old(argv[1..])) && scanner.AllOperands() == Operands(wide, old(argv[1..]))
      invariant 1 <= scanner.optind <= argv.Length && argv[0] == old(argv[0])
      invariant eof ==> argv[1..scanner.optind] == Options(wide, old(argv[1..])) && argv[scanner.optind..] == Operands(wide, old(argv[1..]))
      modifies scanner, argv
      decreases !eof, argv.Length - scanner.optind
    {
      scanner.TakeOption();
      eof := scanner.Advance();
    }
    optind := scanner.optind;
  }

  lemma RotatedSlices<T>(s: seq<T>, r: seq<T>, first: nat, last: nat, top: nat)
    requires 1 <= first <= last <= top <= |s| && r == Rotated(s, first, last, top)
    ensures r[0] == s[0] && r[top..] == s[top..]
    ensures r[1..first + (top - last)] == s[1..first] + s[last..top]
    ensures r[first + (top - last)..top] == s[first..last]
  {
  }
}
