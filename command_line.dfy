/** The command-line loop at the start of `main` in main.cpp: it scans
    `argv[1..]` for `--install`, `--install-dlc` and `--sdl-video-driver <name>`.
    The option taking a value consumes the next argument, so that argument is
    never read as an option itself. */
module CommandLine {
  import opened Wrappers

  const INSTALL: string := "--install"
  const INSTALL_DLC: string := "--install-dlc"
  const SDL_VIDEO_DRIVER: string := "--sdl-video-driver"

  /** The option takes the argument after position `p` as its value. */
  predicate TakesValue(argv: seq<string>, p: nat) {
    p + 1 < |argv| && argv[p] == SDL_VIDEO_DRIVER
  }

  /** The positions from `i` on that the loop examines as options, in order:
      every position, except the value consumed by a `--sdl-video-driver`. */
  function Examined(argv: seq<string>, i: nat): (ps: seq<nat>)
    decreases |argv| - i
    ensures forall k :: 0 <= k < |ps| ==> i <= ps[k] < |argv|
    ensures forall k :: 0 < k < |ps| ==> ps[k - 1] < ps[k]
    ensures i < |argv| ==> |ps| > 0 && ps[0] == i
  {
    if i >= |argv| then []
    else if TakesValue(argv, i) then [i] + Examined(argv, i + 2)
    else [i] + Examined(argv, i + 1)
  }

  /** Some position among `ps` holds `flag`. */
  predicate Has(argv: seq<string>, ps: seq<nat>, flag: string)
    requires forall k :: 0 <= k < |ps| ==> ps[k] < |argv|
  {
    |ps| > 0 && (argv[ps[0]] == flag || Has(argv, ps[1..], flag))
  }

  lemma {:induction false} HasIff(argv: seq<string>, ps: seq<nat>, flag: string)
    requires forall k :: 0 <= k < |ps| ==> ps[k] < |argv|
    ensures Has(argv, ps, flag) <==> exists k :: 0 <= k < |ps| && argv[ps[k]] == flag
  {
    if |ps| > 0 {
      HasIff(argv, ps[1..], flag);
      if Has(argv, ps[1..], flag) {
        var k :| 0 <= k < |ps[1..]| && argv[ps[1..][k]] == flag;
        assert argv[ps[k + 1]] == flag;
      }
      if exists k :: 0 <= k < |ps| && argv[ps[k]] == flag {
        var k :| 0 <= k < |ps| && argv[ps[k]] == flag;
        if k > 0 {
          assert ps[1..][k - 1] == ps[k];
        }
      }
    }
  }

  /** `later` if it is set, otherwise `earlier`. */
  function Latest(later: Option<string>, earlier: Option<string>): (r: Option<string>)
    ensures later.Some? ==> r == later
    ensures later.None? ==> r == earlier
  {
    if later.Some? then later else earlier
  }

  /** The value `--sdl-video-driver` at position `p` sets, if it has one. */
  function DriverAt(argv: seq<string>, p: nat): Option<string>
    requires p < |argv|
  {
    if TakesValue(argv, p) then Some(argv[p + 1]) else None
  }

  /** The value of the last `--sdl-video-driver` among `ps` that has one: each
      one's value is overridden by any later one. */
  function DriverOf(argv: seq<string>, ps: seq<nat>): Option<string>
    requires forall k :: 0 <= k < |ps| ==> ps[k] < |argv|
  {
    if |ps| == 0 then None
    else Latest(DriverOf(argv, ps[1..]), DriverAt(argv, ps[0]))
  }

  /** `DriverOf` is the value of the last position among `ps` that takes one,
      and is unset iff no position takes one. */
  lemma {:induction false} DriverIsLast(argv: seq<string>, ps: seq<nat>)
    requires forall k :: 0 <= k < |ps| ==> ps[k] < |argv|
    ensures DriverOf(argv, ps).None? <==> forall k :: 0 <= k < |ps| ==> !TakesValue(argv, ps[k])
    ensures DriverOf(argv, ps).Some? ==>
      exists k :: 0 <= k < |ps| && TakesValue(argv, ps[k]) && DriverOf(argv, ps) == Some(argv[ps[k] + 1])
        && forall k' :: k < k' < |ps| ==> !TakesValue(argv, ps[k'])
  {
    if |ps| > 0 {
      var rest := ps[1..];
      DriverIsLast(argv, rest);
      if DriverOf(argv, rest).Some? {
        var k :| 0 <= k < |rest| && TakesValue(argv, rest[k]) && DriverOf(argv, rest) == Some(argv[rest[k] + 1])
          && forall k' :: k < k' < |rest| ==> !TakesValue(argv, rest[k']);
        assert ps[k + 1] == rest[k];
        forall k' | k + 1 < k' < |ps|
          ensures !TakesValue(argv, ps[k'])
        {
          assert ps[k'] == rest[k' - 1];
        }
      } else {
        forall k | 1 <= k < |ps|
          ensures !TakesValue(argv, ps[k])
        {
          assert ps[k] == rest[k - 1];
        }
        if TakesValue(argv, ps[0]) {
          assert forall k' :: 0 < k' < |ps| ==> !TakesValue(argv, ps[k']);
        }
      }
    }
  }

  /** The options the loop computes. */
  datatype Options = Options(forceInstaller: bool, forceDLCInstaller: bool, sdlVideoDriver: Option<string>)

  /** What is examined from position `i` on sets on its own. */
  function From(argv: seq<string>, i: nat): Options {
    var ps := Examined(argv, i);
    Options(Has(argv, ps, INSTALL), Has(argv, ps, INSTALL_DLC), DriverOf(argv, ps))
  }

  /** Options seen so far, followed by those set later: flags accumulate and a
      later driver overrides an earlier one. */
  function Merge(seen: Options, later: Options): Options {
    Options(seen.forceInstaller || later.forceInstaller,
            seen.forceDLCInstaller || later.forceDLCInstaller,
            Latest(later.sdlVideoDriver, seen.sdlVideoDriver))
  }

  /** What the loop computes: the options set by the arguments examined from
      position 1 on. */
  function Expected(argv: seq<string>): Options {
    From(argv, 1)
  }

  /** One iteration: what is examined from `i` on is `argv[i]` and then what
      is examined after its value, if it takes one. */
  lemma Step(argv: seq<string>, i: nat)
    requires i < |argv|
    ensures From(argv, i)
         == Merge(Options(argv[i] == INSTALL, argv[i] == INSTALL_DLC, DriverAt(argv, i)),
                  From(argv, if TakesValue(argv, i) then i + 2 else i + 1))
  {
    var next := if TakesValue(argv, i) then i + 2 else i + 1;
    assert Examined(argv, i) == [i] + Examined(argv, next);
    assert Examined(argv, i)[1..] == Examined(argv, next);
  }

  /** The loop of `main` over `argv` (whose first element is the program). A
      flag is set iff it appears at an examined position; the driver is the
      value of the last `--sdl-video-driver` that has one, and a trailing
      `--sdl-video-driver` without a value is ignored. */
  method ParseArgs(argv: seq<string>) returns (opts: Options)
    ensures opts == Expected(argv)
  {
    var forceInstaller, forceDLCInstaller := false, false;
    var sdlVideoDriver: Option<string> := None;
    var i := 1;
    while i < |argv|
      invariant 1 <= i
      invariant Expected(argv) == Merge(Options(forceInstaller, forceDLCInstaller, sdlVideoDriver), From(argv, i))
      decreases |argv| - i
    {
      Step(argv, i);
      forceInstaller := forceInstaller || argv[i] == INSTALL;
      forceDLCInstaller := forceDLCInstaller || argv[i] == INSTALL_DLC;
      if argv[i] == SDL_VIDEO_DRIVER {
        if i + 1 < |argv| {
          i := i + 1;
          sdlVideoDriver := Some(argv[i]);
        }
      }
      i := i + 1;
    }
    return Options(forceInstaller, forceDLCInstaller, sdlVideoDriver);
  }

  /** Every position from `i` on is either examined or is the value of the
      examined `--sdl-video-driver` just before it, never both. */
  lemma {:induction false} ExaminedOrConsumed(argv: seq<string>, i: nat, q: nat)
    requires i <= q < |argv|
    decreases |argv| - i
    ensures q in Examined(argv, i) <==> !(q > i && q - 1 in Examined(argv, i) && TakesValue(argv, q - 1))
  {
    var ps := Examined(argv, i);
    if q == i {
    } else if TakesValue(argv, i) {
      if q == i + 1 {
        assert i in ps;
        assert q !in Examined(argv, i + 2);
      } else {
        ExaminedOrConsumed(argv, i + 2, q);
        assert q - 1 != i;
      }
    } else {
      ExaminedOrConsumed(argv, i + 1, q);
      if q == i + 1 {
        assert i in ps && q - 1 == i;
      }
    }
  }

  /** The value after `--sdl-video-driver` is taken verbatim even when it
      looks like an option: `app --sdl-video-driver --install` selects the
      driver "--install" and does not force the installer. */
  lemma ValueIsNotAnOption()
    ensures Expected(["app", SDL_VIDEO_DRIVER, INSTALL]) == Options(false, false, Some(INSTALL))
  {
    var argv := ["app", SDL_VIDEO_DRIVER, INSTALL];
    assert Examined(argv, 3) == [];
    assert Examined(argv, 1) == [1];
    assert INSTALL != SDL_VIDEO_DRIVER && INSTALL_DLC != SDL_VIDEO_DRIVER;
    var ps: seq<nat> := [1];
    assert ps[1..] == [];
    assert !Has(argv, ps[1..], INSTALL) && !Has(argv, ps[1..], INSTALL_DLC);
    assert argv[ps[0]] != INSTALL && argv[ps[0]] != INSTALL_DLC;
    assert DriverAt(argv, 1) == Some(INSTALL);
    assert DriverOf(argv, ps) == Some(INSTALL);
  }

  /** A trailing `--sdl-video-driver` without a value is ignored: it keeps the
      value given earlier, and alone it leaves the driver unset. */
  lemma TrailingOptionIgnored()
    ensures Expected(["app", SDL_VIDEO_DRIVER, "wayland", SDL_VIDEO_DRIVER]).sdlVideoDriver == Some("wayland")
    ensures Expected(["app", SDL_VIDEO_DRIVER]).sdlVideoDriver == None
  {
    var lone := ["app", SDL_VIDEO_DRIVER];
    var one: seq<nat> := [1];
    assert Examined(lone, 2) == [];
    assert Examined(lone, 1) == one;
    assert one[1..] == [];
    assert DriverAt(lone, 1) == None && DriverOf(lone, one[1..]) == None;
    var argv := ["app", SDL_VIDEO_DRIVER, "wayland", SDL_VIDEO_DRIVER];
    assert Examined(argv, 4) == [];
    assert Examined(argv, 3) == [3];
    assert Examined(argv, 1) == [1, 3];
    assert [1, 3][1..] == [3];
    assert DriverOf(argv, [3]) == None;
  }
}
