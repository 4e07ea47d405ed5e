/** The table-file search open_tb of src/tbdefines.h (lines 257-300, open_tb itself at 261-300): try
    the directories of the search path in order and return the first file
    that opens. The file system is a map from the names that open to the
    handle each one opens with; the search path is the sequence paths, so
    numPaths is |paths|. */
module Locator {

  /** The two families of hosts the source is built for (_WIN32 or not). */
  datatype Platform = Posix | Windows

  /** A file handle: FD_ERR, or the handle of an opened file. */
  datatype Fd = FdErr | Handle(id: nat)

  /** Directory separator written between a directory and a file name. */
  function Separator(platform: Platform): string
  {
    match platform
    case Posix => "/"
    case Windows => "\\"
  }

  /** The name open_tb tries for directory dir: dir, the separator, then
      str and suffix. */
  function Candidate(platform: Platform, dir: string, str: string, suffix: string): string
  {
    dir + Separator(platform) + str + suffix
  }

  /** open(file, O_RDONLY), or CreateFile on Windows: the handle of the
      file if it opens, FD_ERR otherwise. */
  function OpenFile(fs: map<string, nat>, name: string): (fd: Fd)
    ensures fd.Handle? <==> name in fs
    ensures fd.Handle? ==> fd.id == fs[name]
  {
    if name in fs then Handle(fs[name]) else FdErr
  }

  /** Whether the candidate for paths[i] opens. */
  predicate Opens(platform: Platform, fs: map<string, nat>, paths: seq<string>, str: string, suffix: string, i: nat)
    requires i < |paths|
  {
    Candidate(platform, paths[i], str, suffix) in fs
  }

  /** The reference search: the index of the first candidate from index k
      on that opens, |paths| if none does. */
  function FirstOpenIndex(platform: Platform, fs: map<string, nat>, paths: seq<string>, str: string, suffix: string, k: nat): (r: nat)
    requires k <= |paths|
    ensures k <= r <= |paths|
    ensures r < |paths| ==> Opens(platform, fs, paths, str, suffix, r)
    ensures forall j :: k <= j < r ==> !Opens(platform, fs, paths, str, suffix, j)
    decreases |paths| - k
  {
    if k == |paths| || Opens(platform, fs, paths, str, suffix, k) then k
    else FirstOpenIndex(platform, fs, paths, str, suffix, k + 1)
  }

  /** What open_tb should return: the handle of the first candidate that
      opens, FD_ERR if none does. */
  function FirstOpen(platform: Platform, fs: map<string, nat>, paths: seq<string>, str: string, suffix: string): Fd
  {
    var r := FirstOpenIndex(platform, fs, paths, str, suffix, 0);
    if r == |paths| then FdErr else Handle(fs[Candidate(platform, paths[r], str, suffix)])
  }

  /** open_tb(str, suffix). The names tried come back in tried, in order:
      one per directory up to and including the first that opens, every
      directory when none does. */
  method OpenTb(platform: Platform, fs: map<string, nat>, paths: seq<string>, str: string, suffix: string)
    returns (fd: Fd, ghost tried: seq<string>)
    ensures fd == FirstOpen(platform, fs, paths, str, suffix)
    ensures |tried| == if fd == FdErr then |paths| else FirstOpenIndex(platform, fs, paths, str, suffix, 0) + 1
    ensures forall i :: 0 <= i < |tried| ==> tried[i] == Candidate(platform, paths[i], str, suffix)
  {
    tried := [];
    var i := 0;
    while i < |paths|
      invariant 0 <= i <= |paths|
      invariant |tried| == i
      invariant forall j :: 0 <= j < i ==> tried[j] == Candidate(platform, paths[j], str, suffix)
      invariant forall j :: 0 <= j < i ==> !Opens(platform, fs, paths, str, suffix, j)
    {
      var file := paths[i];
      file := file + Separator(platform);
      file := file + str;
      file := file + suffix;
      assert file == Candidate(platform, paths[i], str, suffix);
      tried := tried + [file];
      fd := OpenFile(fs, file);
      if fd != FdErr {
        FirstOpenAt(platform, fs, paths, str, suffix, i);
        return;
      }
      i := i + 1;
    }
    fd := FdErr;
  }

  /** The name for a directory is the directory, one separator character
      and then str followed by suffix. */
  lemma CandidateLayout(platform: Platform, dir: string, str: string, suffix: string)
    ensures |Candidate(platform, dir, str, suffix)| == |dir| + 1 + |str| + |suffix|
    ensures Candidate(platform, dir, str, suffix)[..|dir|] == dir
    ensures Candidate(platform, dir, str, suffix)[|dir|..|dir| + 1] == Separator(platform)
    ensures Candidate(platform, dir, str, suffix)[|dir| + 1..] == str + suffix
  {
  }

  /** The search fails exactly when no candidate opens. */
  lemma FirstOpenFails(platform: Platform, fs: map<string, nat>, paths: seq<string>, str: string, suffix: string)
    ensures FirstOpen(platform, fs, paths, str, suffix) == FdErr
      <==> forall i :: 0 <= i < |paths| ==> !Opens(platform, fs, paths, str, suffix, i)
  {
  }

  /** A candidate that opens, with none before it opening, gives the
      result of the search. */
  lemma FirstOpenAt(platform: Platform, fs: map<string, nat>, paths: seq<string>, str: string, suffix: string, i: nat)
    requires i < |paths| && Opens(platform, fs, paths, str, suffix, i)
    requires forall j :: 0 <= j < i ==> !Opens(platform, fs, paths, str, suffix, j)
    ensures FirstOpenIndex(platform, fs, paths, str, suffix, 0) == i
    ensures FirstOpen(platform, fs, paths, str, suffix) == Handle(fs[Candidate(platform, paths[i], str, suffix)])
  {
  }

  /** With an empty search path open_tb fails. */
  lemma NoPathsNoFile(platform: Platform, fs: map<string, nat>, str: string, suffix: string)
    ensures FirstOpen(platform, fs, [], str, suffix) == FdErr
  {
  }

  /** Only the first directory that holds the file matters: a candidate
      that opens decides the result whatever later directories hold. */
  lemma FirstMatchWins(platform: Platform, fs: map<string, nat>, paths: seq<string>, more: seq<string>, str: string, suffix: string)
    requires FirstOpen(platform, fs, paths, str, suffix).Handle?
    ensures FirstOpen(platform, fs, paths + more, str, suffix) == FirstOpen(platform, fs, paths, str, suffix)
  {
    var i := FirstOpenIndex(platform, fs, paths, str, suffix, 0);
    assert (paths + more)[i] == paths[i];
    forall j | 0 <= j < i
      ensures !Opens(platform, fs, paths + more, str, suffix, j)
    {
      assert (paths + more)[j] == paths[j];
      assert !Opens(platform, fs, paths, str, suffix, j);
    }
    FirstOpenAt(platform, fs, paths + more, str, suffix, i);
  }
}
