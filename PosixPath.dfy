/** `path.parse(key).name` of Node's POSIX path module, for the keys that
    reach it in `transcodeOnUpload`: keys ending with `.mp4`. The name is the
    last `/`-separated segment without its extension, except that a segment
    that is nothing but `.mp4` is a dot-file with no extension and is its own
    name. */
module PosixPath {

  predicate EndsWith(s: string, suffix: string) {
    |suffix| <= |s| && s[|s| - |suffix|..] == suffix
  }

  /** The index just after the last `/` of `s`, or 0 when there is none. */
  function SegmentStart(s: string): (i: nat)
    ensures i <= |s|
    ensures i > 0 ==> s[i - 1] == '/'
    ensures forall j :: i <= j < |s| ==> s[j] != '/'
  {
    if s == [] then 0
    else if s[|s| - 1] == '/' then |s|
    else SegmentStart(s[..|s| - 1])
  }

  /** The last four characters of a key ending with `.mp4`, one by one,
      and when the key is a bare `.mp4` segment. */
  lemma Mp4Tail(key: string)
    requires EndsWith(key, ".mp4")
    ensures |key| >= 4
    ensures key[|key| - 4] == '.' && key[|key| - 3] == 'm' && key[|key| - 2] == 'p' && key[|key| - 1] == '4'
    ensures |key| == 4 ==> key == ".mp4"
    ensures |key| > 4 && key[|key| - 5] == '/' ==> EndsWith(key, "/.mp4")
  {
    var t := key[|key| - 4..];
    assert t[0] == '.' && t[1] == 'm' && t[2] == 'p' && t[3] == '4';
    if |key| == 4 {
      assert key == t;
    }
    if |key| > 4 && key[|key| - 5] == '/' {
      assert key[|key| - 5..] == "/" + t;
    }
  }

  /** `path.parse(key).name` for a key ending with `.mp4`: the last segment
      without its extension, or `.mp4` itself when that is the whole
      segment. */
  function ParseName(key: string): (name: string)
    requires EndsWith(key, ".mp4")
    ensures '/' !in name && name != []
  {
    Mp4Tail(key);
    var start := SegmentStart(key);
    if start >= |key| - 4 then ".mp4" else key[start..|key| - 4]
  }

  /** A segment that is nothing but `.mp4` is a dot-file: it is its own
      name. */
  lemma DotFileName(key: string)
    requires EndsWith(key, ".mp4") && (key == ".mp4" || EndsWith(key, "/.mp4"))
    ensures ParseName(key) == ".mp4"
  {
    Mp4Tail(key);
    var start := SegmentStart(key);
    if key != ".mp4" {
      assert key[|key| - 5..][0] == '/';
    }
  }

  /** Any other key ending with `.mp4` ends with `<name>.mp4`, where the
      name is preceded by a `/` or starts the key. */
  lemma StemName(key: string)
    requires EndsWith(key, ".mp4") && key != ".mp4" && !EndsWith(key, "/.mp4")
    ensures var name := ParseName(key);
      |name| + 4 <= |key| && EndsWith(key, name + ".mp4")
      && (|key| == |name| + 4 || key[|key| - |name| - 5] == '/')
  {
    Mp4Tail(key);
    var n := |key|;
    var start := SegmentStart(key);
    assert start < n - 4;
    var name := key[start..n - 4];
    assert key[start..] == name + key[n - 4..];
  }

  /** The name of `<dir>/<stem>.mp4` is `stem`. */
  lemma BaseNameOf(dir: string, stem: string)
    requires '/' !in stem && stem != []
    ensures EndsWith(dir + "/" + stem + ".mp4", ".mp4")
    ensures ParseName(dir + "/" + stem + ".mp4") == stem
  {
    var key := dir + "/" + stem + ".mp4";
    assert key[|key| - 4..] == ".mp4";
    assert key[|key| - |stem| - 5] == '/';
    assert key[|key| - |stem| - 5..] == "/" + stem + ".mp4";
    assert !EndsWith(key, "/.mp4") by {
      assert key[|key| - 5] == (stem + ".mp4")[|stem| - 1];
    }
    StemName(key);
    NameAfterSlash(key, ParseName(key), stem);
  }

  /** Two slash-free strings that both end a key just after a `/` (or at
      its start) and just before `.mp4` are equal. */
  lemma NameAfterSlash(key: string, a: string, b: string)
    requires '/' !in a && '/' !in b
    requires EndsWith(key, a + ".mp4") && EndsWith(key, b + ".mp4")
    requires |key| == |a| + 4 || key[|key| - |a| - 5] == '/'
    requires |key| == |b| + 4 || key[|key| - |b| - 5] == '/'
    ensures a == b
  {
    var n := |key|;
    if |a| < |b| {
      assert false;
    } else if |b| < |a| {
      assert false;
    } else {
      assert a == key[n - |a| - 4..n - 4] == b;
    }
  }

  /** The name of a key without directory, `<stem>.mp4`, is `stem`. */
  lemma TopLevelName(stem: string)
    requires '/' !in stem && stem != []
    ensures EndsWith(stem + ".mp4", ".mp4")
    ensures ParseName(stem + ".mp4") == stem
  {
    var key := stem + ".mp4";
    assert key[|key| - 4..] == ".mp4";
    assert key[..|stem|] == stem;
    assert !EndsWith(key, "/.mp4") by {
      if |key| > 4 {
        assert key[|key| - 5] == stem[|stem| - 1];
      }
    }
    StemName(key);
    NameAfterSlash(key, ParseName(key), stem);
  }
}
