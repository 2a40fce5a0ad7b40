/** The tree that RamFS `init` builds: its directories and files by name. */
module RamFsInit {
  import opened Bytes
  import opened Paths
  import opened RamFsModel

  /** A name as bytes. */
  function Ascii(s: string): (r: Path)
    ensures |r| == |s|
  {
    seq(|s|, i requires 0 <= i < |s| => s[i] as int % 256)
  }

  const TOP_DIRS: seq<string> := ["etc", "tmp", "home", "var", "dev", "boot", "proc", "sys", "info", "doom"]
  const TOP_FILES: seq<string> := ["CHANGELOG.md"]
  const SUB_DIRS: seq<(string, string)> := [("home", "root"), ("var", "log"), ("sys", "kernel"), ("sys", "devices")]
  const ETC_FILES: seq<string> := ["hostname", "os-release", "motd", "hosts", "resolv.conf", "resolve", "timezone"]
  const DEV_FILES: seq<string> := ["null", "zero", "console", "ttyS0", "fb0", "mem"]
  const INFO_FILES: seq<string> := ["author.txt", "welcome.txt"]
  const BOOT_FILES: seq<string> := ["KERNEL", "limine.conf"]

  function Tops(names: seq<string>): set<Path> { set n | n in names :: Top(Ascii(n)) }

  function Below(dir: string, names: seq<string>): set<Path> { set n | n in names :: Second(Ascii(dir), Ascii(n)) }

  function DirKeys(): set<Path> { {ROOT} + Tops(TOP_DIRS) + (set e | e in SUB_DIRS :: Second(Ascii(e.0), Ascii(e.1))) }

  function FileKeys(): set<Path> {
    Tops(TOP_FILES) + Below("etc", ETC_FILES) + Below("dev", DEV_FILES) + Below("info", INFO_FILES) + Below("boot", BOOT_FILES)
  }

  /** The tree after `init`, for any texts of its files. */
  function InitTree(text: Path -> seq<byte>): Tree {
    map k | k in DirKeys() + FileKeys() :: if k in DirKeys() then Dir else File(text(k))
  }

  predicate Plain(s: string) { |s| > 0 && forall i :: 0 <= i < |s| ==> s[i] as int % 256 != SLASH }

  lemma PlainName(s: string)
    requires Plain(s)
    ensures IsName(Ascii(s))
  {
  }

  ghost predicate AllPlain(names: seq<string>) { forall k :: 0 <= k < |names| ==> Plain(names[k]) }

  lemma PlainTops()
    ensures AllPlain(TOP_DIRS) && AllPlain(TOP_FILES)
  {
    assert Plain("etc") && Plain("tmp") && Plain("home") && Plain("var") && Plain("dev");
    assert Plain("boot") && Plain("proc") && Plain("sys") && Plain("info") && Plain("doom") && Plain("CHANGELOG.md");
  }

  lemma PlainSubNames()
    ensures Plain("root") && Plain("log") && Plain("kernel") && Plain("devices")
  {
  }

  lemma TopNames()
    ensures "home" in TOP_DIRS && "var" in TOP_DIRS && "sys" in TOP_DIRS
  {
    assert TOP_DIRS[2] == "home" && TOP_DIRS[3] == "var" && TOP_DIRS[7] == "sys";
  }

  lemma PlainSubs(e: (string, string))
    requires e in SUB_DIRS
    ensures e.0 in TOP_DIRS && Plain(e.1)
  {
    PlainSubNames();
    TopNames();
    var i :| 0 <= i < |SUB_DIRS| && SUB_DIRS[i] == e;
    assert i == 0 || i == 1 || i == 2 || i == 3;
  }

  lemma PlainEtc()
    ensures AllPlain(ETC_FILES)
  {
    assert Plain("hostname") && Plain("os-release") && Plain("motd") && Plain("hosts");
    assert Plain("resolv.conf") && Plain("resolve") && Plain("timezone");
  }

  lemma PlainDev()
    ensures AllPlain(DEV_FILES)
  {
    assert Plain("null") && Plain("zero") && Plain("console") && Plain("ttyS0") && Plain("fb0") && Plain("mem");
  }

  lemma PlainOthers()
    ensures AllPlain(INFO_FILES) && AllPlain(BOOT_FILES)
  {
    assert Plain("author.txt") && Plain("welcome.txt") && Plain("KERNEL") && Plain("limine.conf");
  }

  lemma TopsAre(names: seq<string>, k: Path)
    requires AllPlain(names) && k in Tops(names)
    ensures exists n: Path :: IsTop(k, n)
  {
    var s :| s in names && k == Top(Ascii(s));
    PlainName(s);
    assert IsTop(k, Ascii(s));
  }

  lemma BelowAre(t: Tree, dir: string, names: seq<string>, k: Path)
    requires AllPlain(names) && Plain(dir) && k in Below(dir, names) && Top(Ascii(dir)) in t && t[Top(Ascii(dir))] == Dir
    ensures exists d: Path, n: Path :: IsSecond(t, k, d, n)
  {
    var s :| s in names && k == Second(Ascii(dir), Ascii(s));
    PlainName(s);
    PlainName(dir);
    assert IsSecond(t, k, Ascii(dir), Ascii(s));
  }

  lemma TopDirIn(text: Path -> seq<byte>, dir: string)
    requires dir in TOP_DIRS
    ensures var t := InitTree(text); Top(Ascii(dir)) in t && t[Top(Ascii(dir))] == Dir
  {
    assert Top(Ascii(dir)) in Tops(TOP_DIRS);
  }

  lemma SubDirsAre(text: Path -> seq<byte>, k: Path)
    requires k in (set e | e in SUB_DIRS :: Second(Ascii(e.0), Ascii(e.1)))
    ensures exists d: Path, n: Path :: IsSecond(InitTree(text), k, d, n)
  {
    var e :| e in SUB_DIRS && k == Second(Ascii(e.0), Ascii(e.1));
    PlainSubs(e);
    PlainTops();
    TopDirIn(text, e.0);
    PlainName(e.0);
    PlainName(e.1);
    assert IsSecond(InitTree(text), k, Ascii(e.0), Ascii(e.1));
  }

  lemma FilesAre(text: Path -> seq<byte>, k: Path)
    requires k in FileKeys()
    ensures (exists n: Path :: IsTop(k, n)) || (exists d: Path, n: Path :: IsSecond(InitTree(text), k, d, n))
  {
    var t := InitTree(text);
    PlainTops();
    assert TOP_DIRS[0] == "etc" && TOP_DIRS[4] == "dev" && TOP_DIRS[8] == "info" && TOP_DIRS[5] == "boot";
    if k in Tops(TOP_FILES) {
      TopsAre(TOP_FILES, k);
    } else if k in Below("etc", ETC_FILES) {
      PlainEtc(); TopDirIn(text, TOP_DIRS[0]); BelowAre(t, TOP_DIRS[0], ETC_FILES, k);
    } else if k in Below("dev", DEV_FILES) {
      PlainDev(); TopDirIn(text, TOP_DIRS[4]); BelowAre(t, TOP_DIRS[4], DEV_FILES, k);
    } else if k in Below("info", INFO_FILES) {
      PlainOthers(); TopDirIn(text, TOP_DIRS[8]); BelowAre(t, TOP_DIRS[8], INFO_FILES, k);
    } else {
      PlainOthers(); TopDirIn(text, TOP_DIRS[5]); BelowAre(t, TOP_DIRS[5], BOOT_FILES, k);
    }
  }

  /** The tree that `init` builds is a tree. */
  lemma InitTreeIsTree(text: Path -> seq<byte>)
    ensures IsTree(InitTree(text))
  {
    var t := InitTree(text);
    assert ROOT in DirKeys();
    forall k | k in t && k != ROOT
      ensures (exists n: Path :: IsTop(k, n)) || (exists d: Path, n: Path :: IsSecond(t, k, d, n))
    {
      if k in Tops(TOP_DIRS) {
        PlainTops();
        TopsAre(TOP_DIRS, k);
      } else if k in FileKeys() {
        FilesAre(text, k);
      } else {
        SubDirsAre(text, k);
      }
    }
    InitIsTree(t);
  }

  /** In every state of every run from there that stays in scope, the keys form a tree. */
  lemma TreeSinceInit(text: Path -> seq<byte>, trace: seq<Tree>, ops: seq<Op>, n: nat)
    requires IsRun(trace, ops) && n < |trace| && trace[0] == InitTree(text)
    ensures IsTree(trace[n])
  {
    InitTreeIsTree(text);
    TreeOverRuns(trace, ops, n);
  }
}
