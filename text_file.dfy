/** An open text file as the runner drives it (`read`, `seek(0)`, `write`, `truncate`),
    and the files of the folder being processed. */
module TextFile {

  /** What `write(s)` at position `p` leaves in a file holding `c`: `s` replaces the
      characters from `p` on, and whatever lay beyond the end of `s` stays. */
  function Overwrite(c: string, p: nat, s: string): (r: string)
    requires p <= |c|
    ensures |r| == if p + |s| < |c| then |c| else p + |s|
    ensures r[..p] == c[..p] && r[p..p + |s|] == s
    ensures r[p + |s|..] == if p + |s| < |c| then c[p + |s|..] else ""
  {
    c[..p] + s + (if p + |s| < |c| then c[p + |s|..] else "")
  }

  /** A write from the start followed by a truncation at the new position leaves exactly
      the written text, whatever the file held before and however long it was. */
  lemma RewriteFromStart(c: string, s: string)
    ensures Overwrite(c, 0, s)[..|s|] == s
  {
    var r := Overwrite(c, 0, s);
    assert r[0..|s|] == s;
  }

  class FileBuffer {
    var content: string
    var pos: nat

    ghost predicate Valid()
      reads this
    {
      pos <= |content|
    }

    /** `open(path, "r+")` on a file holding `text`: the position is at the start. */
    constructor Open(text: string)
      ensures Valid() && content == text && pos == 0
    {
      content := text;
      pos := 0;
    }

    /** `read()`: everything from the position on; the position moves to the end. */
    method Read() returns (s: string)
      requires Valid()
      modifies this
      ensures Valid() && content == old(content)
      ensures s == old(content[pos..]) && pos == |content|
    {
      s := content[pos..];
      pos := |content|;
    }

    /** `seek(0)`. */
    method Rewind()
      requires Valid()
      modifies this
      ensures Valid() && content == old(content) && pos == 0
    {
      pos := 0;
    }

    /** `write(s)`. */
    method Write(s: string)
      requires Valid()
      modifies this
      ensures Valid()
      ensures content == Overwrite(old(content), old(pos), s) && pos == old(pos) + |s|
    {
      content := Overwrite(content, pos, s);
      pos := pos + |s|;
    }

    /** `truncate()`: the file ends at the current position. */
    method Truncate()
      requires Valid()
      modifies this
      ensures Valid() && content == old(content[..pos]) && pos == old(pos)
    {
      content := content[..pos];
    }
  }

  /** The files on disk, by path. */
  class FileSystem {
    var files: map<string, string>

    constructor (files: map<string, string>)
      ensures this.files == files
    {
      this.files := files;
    }
  }
}
