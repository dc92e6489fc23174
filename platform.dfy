/**
 * The server platforms a plugin can run on, their names, and the cached
 * detection of the running platform by probing for a marker class of each.
 */
module Platforms {
  import opened Wrappers

  datatype Platform = Velocity | BungeeCord | Spigot | Paper | ShreddedPaper | Folia

  /** The marker class whose presence identifies a platform. */
  function ClassPath(p: Platform): string {
    match p
    case Velocity => "com.velocitypowered.api.proxy.Proxy"
    case BungeeCord => "net.md_5.bungee.api.CommandSender"
    case Spigot => "org.bukkit.Bukkit"
    case Paper => "io.papermc.paper.util.MCUtil"
    case ShreddedPaper => "io.multipaper.shreddedpaper.threading.ShreddedPaperTickThread"
    case Folia => "io.papermc.paper.threadedregions.commands.CommandServerHealth"
  }

  /** toString: the lower-case name. */
  function Name(p: Platform): string {
    match p
    case Velocity => "velocity"
    case BungeeCord => "bungeecord"
    case Spigot => "spigot"
    case Paper => "paper"
    case ShreddedPaper => "shreddedpaper"
    case Folia => "folia"
  }

  /** toRawString: the name as the constant is spelled. */
  function RawName(p: Platform): string {
    match p
    case Velocity => "Velocity"
    case BungeeCord => "BungeeCord"
    case Spigot => "Spigot"
    case Paper => "Paper"
    case ShreddedPaper => "ShreddedPaper"
    case Folia => "Folia"
  }

  predicate IsUpper(c: char) {
    'A' <= c <= 'Z'
  }

  /** ASCII lower-casing of one character. */
  function LowerChar(c: char): (r: char)
    ensures !IsUpper(r)
    ensures !IsUpper(c) ==> r == c
  {
    if IsUpper(c) then (c as int + 32) as char else c
  }

  predicate IsLowerCase(s: string) {
    forall k :: 0 <= k < |s| ==> !IsUpper(s[k])
  }

  /** toLowerCase over ASCII letters. */
  function Lower(s: string): (r: string)
    ensures |r| == |s| && IsLowerCase(r)
  {
    seq(|s|, k requires 0 <= k < |s| => LowerChar(s[k]))
  }

  /** A string with no upper-case letter is its own lower-case form. */
  lemma LowerOfLowerCase(s: string)
    requires IsLowerCase(s)
    ensures Lower(s) == s
  {
    forall k | 0 <= k < |s|
      ensures Lower(s)[k] == s[k]
    {
      assert !IsUpper(s[k]);
    }
  }

  /** Lower-casing twice is lower-casing once. */
  lemma LowerIdempotent(s: string)
    ensures Lower(Lower(s)) == Lower(s)
  {
    LowerOfLowerCase(Lower(s));
  }

  /**
   * of(name): the platform whose lower-case name is name lower-cased, or the
   * IllegalArgumentException message for any other name.
   */
  function Of(name: string): (r: Result<Platform, string>)
    ensures r.Success? ==> Name(r.value) == Lower(name)
    ensures r.Failure? ==> r.error == "Unknown platform: " + name && forall p :: Name(p) != Lower(name)
  {
    var lower := Lower(name);
    if lower == "velocity" then Success(Velocity)
    else if lower == "bungeecord" then Success(BungeeCord)
    else if lower == "spigot" then Success(Spigot)
    else if lower == "paper" then Success(Paper)
    else if lower == "shreddedpaper" then Success(ShreddedPaper)
    else if lower == "folia" then Success(Folia)
    else Failure("Unknown platform: " + name)
  }

  /** Different platforms have different names, in both spellings. */
  lemma NamesInjective(p: Platform, q: Platform)
    ensures Name(p) == Name(q) ==> p == q
    ensures RawName(p) == RawName(q) ==> p == q
  {
  }

  /** Every lower-case name has no upper-case letter. */
  lemma NameIsLowerCase(p: Platform)
    ensures IsLowerCase(Name(p))
  {
    var s := Name(p);
    forall k | 0 <= k < |s|
      ensures !IsUpper(s[k])
    {
    }
  }

  /** toString is toRawString lower-cased. */
  lemma NameIsLowerRawName(p: Platform)
    ensures Name(p) == Lower(RawName(p))
  {
    match p
    case Velocity => LowerWord("Velocity", "velocity");
    case BungeeCord => LowerWord("BungeeCord", "bungeecord");
    case Spigot => LowerWord("Spigot", "spigot");
    case Paper => LowerWord("Paper", "paper");
    case ShreddedPaper => LowerWord("ShreddedPaper", "shreddedpaper");
    case Folia => LowerWord("Folia", "folia");
  }

  /** A word lower-cased character by character. */
  lemma LowerWord(raw: string, low: string)
    requires |raw| == |low| && forall k :: 0 <= k < |raw| ==> LowerChar(raw[k]) == low[k]
    ensures Lower(raw) == low
  {
  }

  /** of accepts a name exactly when its lower-case form is some platform's name. */
  lemma OfExactly(name: string, p: Platform)
    ensures Of(name) == Success(p) <==> Lower(name) == Name(p)
  {
    if Lower(name) == Name(p) {
      NamesInjective(Of(name).value, p);
    }
  }

  /** of(p.toString()) == p. */
  lemma OfName(p: Platform)
    ensures Of(Name(p)) == Success(p)
  {
    NameIsLowerCase(p);
    LowerOfLowerCase(Name(p));
    OfExactly(Name(p), p);
  }

  /** of(p.toRawString()) == p. */
  lemma OfRawName(p: Platform)
    ensures Of(RawName(p)) == Success(p)
  {
    NameIsLowerRawName(p);
    OfExactly(RawName(p), p);
  }

  /** of ignores case: a name and its lower-case form are accepted together and give the same platform. */
  lemma OfIgnoresCase(name: string)
    ensures Of(name).Success? <==> Of(Lower(name)).Success?
    ensures Of(name).Success? ==> Of(name) == Of(Lower(name))
  {
    LowerIdempotent(name);
    if Of(name).Success? {
      OfExactly(Lower(name), Of(name).value);
    }
    if Of(Lower(name)).Success? {
      OfExactly(name, Of(Lower(name)).value);
    }
  }

  /** isBukkit on the detected platform: every platform but the two proxies. */
  predicate Bukkit(p: Platform): (b: bool)
    ensures b <==> p != Velocity && p != BungeeCord
  {
    p == Spigot || p == Paper || p == Folia || p == ShreddedPaper
  }

  /** isMultithreading on the detected platform: the region-threaded forks, all of them Bukkit platforms. */
  predicate Multithreading(p: Platform): (b: bool)
    ensures b ==> Bukkit(p)
  {
    p == Folia || p == ShreddedPaper
  }

  /** The platforms get() probes for, in order; Spigot is the default and is not probed. */
  const ProbeOrder: seq<Platform> := [Velocity, BungeeCord, Folia, ShreddedPaper, Paper]

  /** Platform.is(): the platform's marker class is on the class path. */
  predicate Present(classes: set<string>, p: Platform) {
    ClassPath(p) in classes
  }

  /** The probe get() makes for each platform, given the classes on the class path. */
  function ProbeOf(classes: set<string>): Platform -> bool {
    p => Present(classes, p)
  }

  /** Where the first platform of `order` whose probe succeeds sits; |order| when none does. */
  function FirstPresentIndex(order: seq<Platform>, present: Platform -> bool): (k: nat)
    ensures k <= |order|
    ensures k < |order| ==> present(order[k])
    ensures forall m :: 0 <= m < k ==> !present(order[m])
    decreases |order|
  {
    if order == [] then 0
    else if present(order[0]) then 0
    else 1 + FirstPresentIndex(order[1..], present)
  }

  /** The platform a first call to get() detects: the first present one in probe order, else Spigot. */
  function Detect(present: Platform -> bool): Platform {
    var k := FirstPresentIndex(ProbeOrder, present);
    if k < |ProbeOrder| then ProbeOrder[k] else Spigot
  }

  /** How many probes that first call makes: up to and including the first hit, or all of them. */
  function ProbesMade(present: Platform -> bool): nat {
    var k := FirstPresentIndex(ProbeOrder, present);
    if k < |ProbeOrder| then k + 1 else |ProbeOrder|
  }

  /** The probe order lists five distinct platforms, none of them Spigot. */
  lemma ProbeOrderDistinct()
    ensures forall m, n :: 0 <= m < n < |ProbeOrder| ==> ProbeOrder[m] != ProbeOrder[n]
    ensures Spigot !in ProbeOrder
  {
  }

  /** The k-th probe hitting, after k misses, decides get(): it returns ProbeOrder[k] after k + 1 probes. */
  lemma DetectAt(present: Platform -> bool, k: nat)
    requires k < |ProbeOrder| && present(ProbeOrder[k])
    requires forall m :: 0 <= m < k ==> !present(ProbeOrder[m])
    ensures Detect(present) == ProbeOrder[k] && ProbesMade(present) == k + 1
  {
  }

  /** All five probes missing makes get() fall back to Spigot. */
  lemma DetectNone(present: Platform -> bool)
    requires forall m :: 0 <= m < |ProbeOrder| ==> !present(ProbeOrder[m])
    ensures Detect(present) == Spigot && ProbesMade(present) == |ProbeOrder|
  {
  }

  /** Spelled out over the five probes, in the order get() makes them. */
  lemma DetectInOrder(present: Platform -> bool)
    ensures Detect(present) ==
      if present(Velocity) then Velocity
      else if present(BungeeCord) then BungeeCord
      else if present(Folia) then Folia
      else if present(ShreddedPaper) then ShreddedPaper
      else if present(Paper) then Paper
      else Spigot
    ensures ProbesMade(present) ==
      if present(Velocity) then 1
      else if present(BungeeCord) then 2
      else if present(Folia) then 3
      else if present(ShreddedPaper) then 4
      else 5
  {
    var order := ProbeOrder;
    assert order[0] == Velocity && order[1] == BungeeCord && order[2] == Folia
      && order[3] == ShreddedPaper && order[4] == Paper;
    if present(Velocity) {
      DetectAt(present, 0);
    } else if present(BungeeCord) {
      DetectAt(present, 1);
    } else if present(Folia) {
      DetectAt(present, 2);
    } else if present(ShreddedPaper) {
      DetectAt(present, 3);
    } else if present(Paper) {
      DetectAt(present, 4);
    } else {
      DetectNone(present);
    }
  }

  /**
   * First match wins: get() detects the k-th platform of the probe order
   * exactly when that one is present and none before it is, and Spigot
   * exactly when none of them is.
   */
  lemma DetectFirstMatch(present: Platform -> bool, k: nat)
    requires k < |ProbeOrder|
    ensures Detect(present) == ProbeOrder[k]
        <==> present(ProbeOrder[k]) && forall m :: 0 <= m < k ==> !present(ProbeOrder[m])
    ensures Detect(present) == Spigot <==> forall m :: 0 <= m < |ProbeOrder| ==> !present(ProbeOrder[m])
  {
    ProbeOrderDistinct();
    var i := FirstPresentIndex(ProbeOrder, present);
    if Detect(present) == ProbeOrder[k] {
      assert i == k;
    }
  }

  /**
   * The platform enum's static state: the cached platform, and the classes
   * on the class path that the probes look for.
   */
  class PlatformDetector {
    var platform: Option<Platform>
    const classes: set<string>
    /** How many class probes have been made so far. */
    ghost var probes: nat

    constructor(classes: set<string>)
      ensures this.classes == classes && platform == None && probes == 0
    {
      this.classes := classes;
      platform := None;
      probes := 0;
    }

    /** Platform.is(): one class-path probe. */
    method Is(p: Platform) returns (b: bool)
      modifies this`probes
      ensures b == Present(classes, p)
      ensures probes == old(probes) + 1
    {
      b := ClassPath(p) in classes;
      probes := probes + 1;
    }

    /**
     * get(): the cached platform if there is one, without probing; otherwise
     * the first present platform in probe order, or Spigot, which is then cached.
     */
    method Get() returns (p: Platform)
      modifies this`platform, this`probes
      ensures platform == Some(p)
      ensures old(platform).Some? ==> p == old(platform).value && probes == old(probes)
      ensures old(platform).None? ==> p == Detect(ProbeOf(classes)) && probes == old(probes) + ProbesMade(ProbeOf(classes))
    {
      if platform.Some? {
        return platform.value;
      }
      DetectInOrder(ProbeOf(classes));
      var found := Is(Velocity);
      if found {
        platform := Some(Velocity);
        return Velocity;
      }
      found := Is(BungeeCord);
      if found {
        platform := Some(BungeeCord);
        return BungeeCord;
      }
      found := Is(Folia);
      if found {
        platform := Some(Folia);
        return Folia;
      }
      found := Is(ShreddedPaper);
      if found {
        platform := Some(ShreddedPaper);
        return ShreddedPaper;
      }
      found := Is(Paper);
      if found {
        platform := Some(Paper);
        return Paper;
      }
      platform := Some(Spigot);
      return Spigot;
    }

    /** isBukkit(): compares get() with each Bukkit platform in turn. */
    method IsBukkit() returns (b: bool)
      modifies this`platform, this`probes
      ensures platform.Some? && b == Bukkit(platform.value)
      ensures old(platform).Some? ==> platform == old(platform) && probes == old(probes)
      ensures old(platform).None? ==> platform == Some(Detect(ProbeOf(classes)))
    {
      var p := Get();
      if p == Spigot {
        return true;
      }
      p := Get();
      if p == Paper {
        return true;
      }
      p := Get();
      if p == Folia {
        return true;
      }
      p := Get();
      return p == ShreddedPaper;
    }

    /** isMultithreading(): compares get() with Folia, then ShreddedPaper. */
    method IsMultithreading() returns (b: bool)
      modifies this`platform, this`probes
      ensures platform.Some? && b == Multithreading(platform.value)
      ensures old(platform).Some? ==> platform == old(platform) && probes == old(probes)
      ensures old(platform).None? ==> platform == Some(Detect(ProbeOf(classes)))
    {
      var p := Get();
      if p == Folia {
        return true;
      }
      p := Get();
      return p == ShreddedPaper;
    }
  }
}
