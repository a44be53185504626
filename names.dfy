/** The file-name handling of the second server variant: the requested name is
    split on '/' and only its last component is used. */
module Names {

  /** strings.Join(parts, [sep]) */
  function Join(parts: seq<string>, sep: char): (s: string)
  {
    if |parts| == 0 then []
    else if |parts| == 1 then parts[0]
    else parts[0] + [sep] + Join(parts[1..], sep)
  }

  /** strings.Split(s, [sep]): the pieces between separators, in order. The
      empty string splits into one empty piece, and a separator at either end
      yields an empty piece there. */
  function Split(s: string, sep: char): (parts: seq<string>)
    ensures |parts| >= 1
    ensures forall i :: 0 <= i < |parts| ==> sep !in parts[i]
    ensures Join(parts, sep) == s
    ensures |parts| == 1 <==> sep !in s
  {
    if s == [] then [[]]
    else
      var rest := Split(s[1..], sep);
      if s[0] == sep then
        assert ([[]] + rest)[1..] == rest;
        [[]] + rest
      else
        var parts := [[s[0]] + rest[0]] + rest[1..];
        assert parts[1..] == rest[1..];
        assert s == [s[0]] + s[1..];
        parts
  }

  /** The last '/'-separated piece of a name: what the second server variant
      stores under. */
  function Basename(fileName: string): (b: string)
    ensures '/' !in b
  {
    var parts := Split(fileName, '/');
    parts[|parts| - 1]
  }

  /** Joining all pieces but the last, then the separator, then the last piece,
      gives back the whole. */
  lemma {:induction false} JoinLast(parts: seq<string>, sep: char)
    requires |parts| >= 2
    ensures Join(parts, sep) == Join(parts[..|parts| - 1], sep) + [sep] + parts[|parts| - 1]
    decreases |parts|
  {
    if |parts| > 2 {
      JoinLast(parts[1..], sep);
      assert parts[1..][..|parts| - 2] == parts[..|parts| - 1][1..];
    }
  }

  /** The basename is the last '/'-separated component of the name: a suffix of
      it that contains no '/' and that starts at the beginning of the name or
      right after a '/'. */
  lemma BasenameIsLastComponent(fileName: string) returns (k: nat)
    ensures k <= |fileName| && Basename(fileName) == fileName[k..]
    ensures k == 0 || fileName[k - 1] == '/'
    ensures '/' !in Basename(fileName)
  {
    var parts := Split(fileName, '/');
    if |parts| == 1 {
      k := 0;
    } else {
      JoinLast(parts, '/');
      k := |Join(parts[..|parts| - 1], '/')| + 1;
      assert fileName == Join(parts[..|parts| - 1], '/') + ['/'] + parts[|parts| - 1];
    }
  }

  /** A name without '/' is used unchanged. */
  lemma BasenameOfPlainName(fileName: string)
    requires '/' !in fileName
    ensures Basename(fileName) == fileName
  {
  }

  /** Stripping twice is stripping once. */
  lemma BasenameIdempotent(fileName: string)
    ensures Basename(Basename(fileName)) == Basename(fileName)
  {
    var _ := BasenameIsLastComponent(fileName);
    BasenameOfPlainName(Basename(fileName));
  }
}
