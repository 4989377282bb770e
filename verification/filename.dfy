/**
 `t1_get_filename(path)`: the file-name part of a NUL-terminated path, as a
 pointer into the same string. The path is modelled as the memory it points
 into (at least up to its terminator) and the result as an offset into it;
 a null pointer is None.
 */
module Filename {
  import opened Options

  /**
   Only '/' separates directories. The backslash branch sits under `#if
   Windows`, a macro the header never defines, so it is never compiled.
   */
  predicate IsSeparator(c: char)
  {
    c == '/'
  }

  /** `strlen`: the offset of the first NUL. */
  function StrLen(mem: seq<char>): (n: nat)
    requires '\0' in mem
    ensures n < |mem| && mem[n] == '\0'
    ensures forall i :: 0 <= i < n ==> mem[i] != '\0'
  {
    ScanFrom(mem, 0)
  }

  /** The first NUL at or after position i. */
  function ScanFrom(mem: seq<char>, i: nat): (n: nat)
    requires i <= |mem| && '\0' in mem[i..]
    ensures i <= n < |mem| && mem[n] == '\0'
    ensures forall j :: i <= j < n ==> mem[j] != '\0'
    decreases |mem| - i
  {
    if mem[i] == '\0' then i
    else
      assert mem[i..] == [mem[i]] + mem[i + 1..];
      ScanFrom(mem, i + 1)
  }

  /** A NUL with no NUL before it is where the string ends. */
  lemma StrLenAt(mem: seq<char>, n: nat)
    requires n < |mem| && mem[n] == '\0'
    requires forall i :: 0 <= i < n ==> mem[i] != '\0'
    ensures '\0' in mem && StrLen(mem) == n
  {
    assert mem[n] in mem;
  }

  /** The position of the last separator among the first n characters, if any. */
  function LastSeparator(mem: seq<char>, n: nat): (r: Option<nat>)
    requires n <= |mem|
    ensures r.Some? ==> r.value < n && IsSeparator(mem[r.value])
    ensures r.Some? ==> forall i :: r.value < i < n ==> !IsSeparator(mem[i])
    ensures r.None? ==> forall i :: 0 <= i < n ==> !IsSeparator(mem[i])
  {
    if n == 0 then None
    else if IsSeparator(mem[n - 1]) then Some(n - 1)
    else LastSeparator(mem, n - 1)
  }

  /**
   Where `t1_get_filename` points: just past the last separator, or, when
   there is none, at the terminator (the scan pointer after the loop).
   */
  function FilenameStart(mem: seq<char>): (o: nat)
    requires '\0' in mem
    ensures o <= StrLen(mem)
    ensures forall i :: o <= i < StrLen(mem) ==> !IsSeparator(mem[i])
    ensures o == StrLen(mem) || (o > 0 && IsSeparator(mem[o - 1]))
    ensures (exists i :: 0 <= i < StrLen(mem) && IsSeparator(mem[i])) ==> o > 0 && IsSeparator(mem[o - 1])
    ensures (forall i :: 0 <= i < StrLen(mem) ==> !IsSeparator(mem[i])) ==> o == StrLen(mem)
  {
    match LastSeparator(mem, StrLen(mem))
    case None => StrLen(mem)
    case Some(i) => i + 1
  }

  /** The characters of the file name the result points at. */
  function FilenameOf(mem: seq<char>): (name: seq<char>)
    requires '\0' in mem
    ensures forall c :: c in name ==> c != '\0' && !IsSeparator(c)
  {
    mem[FilenameStart(mem)..StrLen(mem)]
  }

  /**
   `t1_get_filename` as the loop it is: walk to the terminator, remembering
   the last separator seen; return null for null, one past the last
   separator, or the terminator when there was none.
   */
  method GetFilename(path: Option<seq<char>>) returns (r: Option<nat>)
    requires path.Some? ==> '\0' in path.value
    ensures r.None? <==> path.None?
    ensures r.Some? ==> r.value == FilenameStart(path.value)
  {
    if path.None? {
      return None;
    }
    var mem := path.value;
    var p := 0;
    var lastSlash: Option<nat> := None;
    while mem[p] != '\0'
      invariant p <= StrLen(mem)
      invariant lastSlash == LastSeparator(mem, p)
      decreases StrLen(mem) - p
    {
      if IsSeparator(mem[p]) {
        lastSlash := Some(p);
      }
      p := p + 1;
    }
    if lastSlash.None? {
      return Some(p);
    }
    return Some(lastSlash.value + 1);
  }

  /** The last separator is the one with no separator after it. */
  lemma {:induction false} LastSeparatorAt(mem: seq<char>, n: nat, k: nat)
    requires k < n <= |mem| && IsSeparator(mem[k])
    requires forall i :: k < i < n ==> !IsSeparator(mem[i])
    ensures LastSeparator(mem, n) == Some(k)
    decreases n
  {
    if n - 1 != k {
      LastSeparatorAt(mem, n - 1, k);
    }
  }

  /** Without any separator there is no last one. */
  lemma {:induction false} LastSeparatorNone(mem: seq<char>, n: nat)
    requires n <= |mem|
    requires forall i :: 0 <= i < n ==> !IsSeparator(mem[i])
    ensures LastSeparator(mem, n).None?
    decreases n
  {
    if n > 0 {
      LastSeparatorNone(mem, n - 1);
    }
  }

  /** A NUL-free text followed by a NUL: its length is the string length. */
  lemma StrLenOfTerminated(s: seq<char>)
    requires forall c :: c in s ==> c != '\0'
    ensures '\0' in s + ['\0'] && StrLen(s + ['\0']) == |s|
  {
    var mem := s + ['\0'];
    forall i | 0 <= i < |s|
      ensures mem[i] != '\0'
    {
      assert mem[i] == s[i] && s[i] in s;
    }
    StrLenAt(mem, |s|);
  }

  /** A path ending in a separator has an empty file name. */
  lemma TrailingSeparatorEmpty(mem: seq<char>)
    requires '\0' in mem && StrLen(mem) > 0 && IsSeparator(mem[StrLen(mem) - 1])
    ensures FilenameOf(mem) == []
  {
  }

  /** For "dir/name", the file name is exactly the part after the last '/'. */
  lemma FilenameAfterLastSlash(dir: seq<char>, name: seq<char>)
    requires forall c :: c in dir ==> c != '\0'
    requires forall c :: c in name ==> c != '\0' && !IsSeparator(c)
    ensures '\0' in dir + ['/'] + name + ['\0']
    ensures FilenameOf(dir + ['/'] + name + ['\0']) == name
  {
    var path := dir + ['/'] + name;
    assert forall c :: c in path ==> c in dir || c == '/' || c in name;
    StrLenOfTerminated(path);
    var mem := path + ['\0'];
    assert mem == dir + ['/'] + name + ['\0'];
    forall i | |dir| < i < |path|
      ensures !IsSeparator(mem[i])
    {
      assert mem[i] == name[i - |dir| - 1] && name[i - |dir| - 1] in name;
    }
    LastSeparatorAt(mem, |path|, |dir|);
    assert mem[|dir| + 1..|path|] == name;
  }

  /**
   A backslash is an ordinary character: in "dir\\name", with no '/' in
   either part, there is no separator and the result is the terminator.
   */
  lemma BackslashIsNotSeparator(dir: seq<char>, name: seq<char>)
    requires forall c :: c in dir ==> c != '\0' && !IsSeparator(c)
    requires forall c :: c in name ==> c != '\0' && !IsSeparator(c)
    ensures '\0' in dir + ['\\'] + name + ['\0']
    ensures FilenameStart(dir + ['\\'] + name + ['\0']) == |dir| + 1 + |name|
  {
    var path := dir + ['\\'] + name;
    assert forall c :: c in path ==> c in dir || c == '\\' || c in name;
    StrLenOfTerminated(path);
    var mem := path + ['\0'];
    assert mem == dir + ['\\'] + name + ['\0'];
    forall i | 0 <= i < |path|
      ensures !IsSeparator(mem[i])
    {
      assert mem[i] == path[i] && path[i] in path;
    }
    LastSeparatorNone(mem, |path|);
  }

  // ---------------------------------------------------------------------
  // The path without any separator

  /** As written: a bare file name yields the empty string at its terminator. */
  lemma BareNameGivesEmpty(name: seq<char>)
    requires forall c :: c in name ==> c != '\0' && !IsSeparator(c)
    ensures '\0' in name + ['\0']
    ensures FilenameStart(name + ['\0']) == |name|
    ensures FilenameOf(name + ['\0']) == []
  {
    StrLenOfTerminated(name);
    var mem := name + ['\0'];
    forall i | 0 <= i < |name|
      ensures !IsSeparator(mem[i])
    {
      assert mem[i] == name[i] && name[i] in name;
    }
    LastSeparatorNone(mem, |name|);
  }

  /**
   The evident intent: a path without a separator is already a file name and
   is returned whole, so the result points at the start of the path.
   */
  function FilenameStartIntended(mem: seq<char>): (o: nat)
    requires '\0' in mem
    ensures o <= StrLen(mem)
    ensures forall i :: o <= i < StrLen(mem) ==> !IsSeparator(mem[i])
    ensures o == 0 || IsSeparator(mem[o - 1])
    ensures (exists i :: 0 <= i < StrLen(mem) && IsSeparator(mem[i])) ==> o > 0 && IsSeparator(mem[o - 1])
    ensures (forall i :: 0 <= i < StrLen(mem) ==> !IsSeparator(mem[i])) ==> o == 0
  {
    match LastSeparator(mem, StrLen(mem))
    case None => 0
    case Some(i) => i + 1
  }

  function FilenameOfIntended(mem: seq<char>): (name: seq<char>)
    requires '\0' in mem
    ensures forall c :: c in name ==> c != '\0' && !IsSeparator(c)
  {
    mem[FilenameStartIntended(mem)..StrLen(mem)]
  }

  /**
   With the intended rule, extracting the file name is idempotent: the name
   of a name is itself, and the name of a bare name is the whole string.
   */
  lemma FilenameIntendedIdempotent(mem: seq<char>)
    requires '\0' in mem
    ensures FilenameOfIntended(FilenameOfIntended(mem) + ['\0']) == FilenameOfIntended(mem)
  {
    var name := FilenameOfIntended(mem);
    StrLenOfTerminated(name);
    var mem2 := name + ['\0'];
    assert mem2[..|name|] == name;
  }

  /**
   As written the same round trip fails: the name of "dir/name" is "name",
   but the name of "name" is empty.
   */
  lemma FilenameNotIdempotent(dir: seq<char>, name: seq<char>)
    requires forall c :: c in dir ==> c != '\0'
    requires forall c :: c in name ==> c != '\0' && !IsSeparator(c)
    requires name != []
    ensures '\0' in dir + ['/'] + name + ['\0']
    ensures FilenameOf(FilenameOf(dir + ['/'] + name + ['\0']) + ['\0']) != FilenameOf(dir + ['/'] + name + ['\0'])
  {
    FilenameAfterLastSlash(dir, name);
    BareNameGivesEmpty(name);
  }
}
