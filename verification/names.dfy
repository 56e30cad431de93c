/**
 File names on the two ends of a transfer: the sender and the receiver
 both store the compressed bytes under `name + ".gz"`, and the receiver
 writes the decompressed bytes under `gzName.replace(".gz", "")`, which
 removes every occurrence of ".gz", not only the suffix.
 */
module Names {
  import opened Text

  const Ext: string := ".gz"

  /** ".gz" occurs in `s` at index `i`. */
  predicate ExtAt(s: string, i: int) {
    0 <= i <= |s| - 3 && s[i..i + 3] == Ext
  }

  /** `".gz" in s` for Python strings. */
  predicate ContainsExt(s: string) {
    exists i :: 0 <= i <= |s| - 3 && ExtAt(s, i)
  }

  /** Number of ".gz" occurrences; they never overlap, since no proper
      suffix of ".gz" is a prefix of it. */
  function CountExt(s: string): nat
    decreases |s|
  {
    if |s| < 3 then 0
    else if s[..3] == Ext then 1 + CountExt(s[3..])
    else CountExt(s[1..])
  }

  /** `s.replace(".gz", "")`: scan left to right, drop each occurrence. */
  function RemoveExt(s: string): (r: string)
    ensures |r| + 3 * CountExt(s) == |s|
    decreases |s|
  {
    if |s| < 3 then s
    else if s[..3] == Ext then RemoveExt(s[3..])
    else [s[0]] + RemoveExt(s[1..])
  }

  /** The name `compress_file` writes and `receive_file` stores into. */
  function CompressedName(name: string): (gz: string)
    ensures |gz| == |name| + 3
    ensures gz[..|name|] == name && gz[|name|..] == Ext
  {
    name + Ext
  }

  /** The name `decompress_file` writes the restored bytes to. */
  function DecompressedName(gz: string): (plain: string)
    ensures |plain| + 3 * CountExt(gz) == |gz|
    ensures plain == gz <==> !ContainsExt(gz)
  {
    CountZeroIffAbsent(gz);
    RemoveExtAbsent(gz);
    RemoveExt(gz)
  }

  // ---------------------------------------------------------------- lemmas

  lemma {:induction false} CountZeroIffAbsent(s: string)
    ensures CountExt(s) == 0 <==> !ContainsExt(s)
    decreases |s|
  {
    if |s| >= 3 {
      if s[..3] == Ext {
        assert s[0..3] == s[..3];
        assert ExtAt(s, 0);
      } else {
        CountZeroIffAbsent(s[1..]);
        if ContainsExt(s) {
          var i :| 0 <= i <= |s| - 3 && ExtAt(s, i);
          assert i != 0 by { assert s[..3] == s[0..3]; }
          assert s[1..][i - 1..i + 2] == s[i..i + 3];
          assert ExtAt(s[1..], i - 1);
        }
        if ContainsExt(s[1..]) {
          var j :| 0 <= j <= |s[1..]| - 3 && ExtAt(s[1..], j);
          assert s[j + 1..j + 4] == s[1..][j..j + 3];
          assert ExtAt(s, j + 1);
        }
      }
    }
  }

  /** Appending ".gz" to a name creates exactly one new occurrence: none
      can straddle the join. */
  lemma {:induction false} CountWithExt(name: string)
    ensures CountExt(name + Ext) == CountExt(name) + 1
    decreases |name|
  {
    var s := name + Ext;
    if |name| < 3 {
      // `name` is too short to hold ".gz", and no occurrence of ".gz"
      // can start inside it, since '.' is not 'g' or 'z'
      if |name| == 0 {
        assert s == Ext;
        assert s[3..] == [];
      } else if |name| == 1 {
        assert s[..3] != Ext by { assert s[1] == '.'; }
        assert s[1..] == Ext;
        assert s[1..][3..] == [];
      } else {
        assert s[..3] != Ext by { assert s[2] == '.'; }
        assert s[1..] == name[1..] + Ext;
        assert s[1..][..3] != Ext by { assert s[1..][1] == '.'; }
        assert s[1..][1..] == Ext;
        assert s[1..][1..][3..] == [];
        assert CountExt(s[1..][1..]) == 1;
        assert CountExt(s[1..]) == 1;
      }
    } else {
      assert s[..3] == name[..3];
      if name[..3] == Ext {
        assert s[3..] == name[3..] + Ext;
        CountWithExt(name[3..]);
      } else {
        assert s[1..] == name[1..] + Ext;
        CountWithExt(name[1..]);
      }
    }
  }

  /** A name without ".gz" passes through `RemoveExt` unchanged. */
  lemma {:induction false} RemoveExtAbsent(s: string)
    ensures CountExt(s) == 0 ==> RemoveExt(s) == s
    decreases |s|
  {
    if |s| >= 3 && CountExt(s) == 0 {
      assert s[..3] != Ext;
      RemoveExtAbsent(s[1..]);
      assert s == [s[0]] + s[1..];
    }
  }

  /** Name round trip: the receiver restores the sender's name exactly when
      that name contains no ".gz". */
  lemma NameRoundTrip(name: string)
    ensures DecompressedName(CompressedName(name)) == name <==> !ContainsExt(name)
  {
    CountWithExt(name);
    CountZeroIffAbsent(name);
    var gz := CompressedName(name);
    assert |DecompressedName(gz)| == |name| - 3 * CountExt(name);
    if !ContainsExt(name) {
      RemoveExtWithSuffix(name);
    }
  }

  lemma {:induction false} RemoveExtWithSuffix(name: string)
    requires CountExt(name) == 0
    ensures RemoveExt(name + Ext) == name
    decreases |name|
  {
    var s := name + Ext;
    CountWithExt(name);
    if |name| == 0 {
      assert s == Ext;
      assert s[3..] == [];
    } else {
      if |name| >= 3 {
        assert s[..3] == name[..3];
        assert name[..3] != Ext;
      } else if |name| == 1 {
        assert s[1] == '.';
      } else {
        assert s[2] == '.';
      }
      assert s[..3] != Ext;
      assert s[1..] == name[1..] + Ext;
      CountOfTail(name);
      RemoveExtWithSuffix(name[1..]);
      assert name == [name[0]] + name[1..];
    }
  }

  lemma CountOfTail(name: string)
    requires name != [] && CountExt(name) == 0
    ensures CountExt(name[1..]) == 0
  {
    if |name| >= 3 {
      assert name[..3] != Ext;
    }
  }

  /** The decompressed name is always distinct from the ".gz" name, so the
      received archive is never overwritten by its own contents. */
  lemma DecompressedNameDiffers(name: string)
    ensures DecompressedName(CompressedName(name)) != CompressedName(name)
  {
    CountWithExt(name);
  }

  /** The restored name is empty exactly when the name is made of ".gz"
      copies alone, as "" and ".gz" are. */
  lemma EmptyRestoredName(name: string)
    ensures DecompressedName(CompressedName(name)) == "" <==> |name| == 3 * CountExt(name)
  {
    CountWithExt(name);
  }

  /** A character that cannot start ".gz" here is kept. */
  lemma RemoveExtCons(c: char, rest: string)
    requires c != '.' || rest == [] || rest[0] != 'g'
    ensures RemoveExt([c] + rest) == [c] + RemoveExt(rest)
  {
    var s := [c] + rest;
    assert s[1..] == rest;
    if |s| >= 3 {
      assert s[..3] != Ext by {
        if c == '.' { assert s[..3][1] == rest[0]; } else { assert s[..3][0] == c; }
      }
    }
  }

  lemma RemoveExtExt(rest: string)
    ensures RemoveExt(Ext + rest) == RemoveExt(rest)
  {
    var s := Ext + rest;
    assert s[..3] == Ext && s[3..] == rest;
  }

  /** `replace` works occurrence by occurrence: the text on either side of
      a ".gz" is cleaned on its own, since no occurrence can straddle it. */
  lemma RemoveExtSplit(a: string, b: string)
    ensures RemoveExt(a + Ext + b) == RemoveExt(a) + RemoveExt(b)
  {
    assert a + Ext + b == a + (Ext + b);
    assert (Ext + b)[..3] == Ext;
    RemoveExtAppendExt(a, Ext + b);
    RemoveExtExt(b);
  }

  lemma {:induction false} RemoveExtAppendExt(a: string, t: string)
    requires |t| >= 3 && t[..3] == Ext
    ensures RemoveExt(a + t) == RemoveExt(a) + RemoveExt(t)
    decreases |a|
  {
    if a == [] {
      assert a + t == t;
    } else if |a| >= 3 && a[..3] == Ext {
      RemoveExtAppendExt(a[3..], t);
      DropStep(a, t);
    } else {
      RemoveExtAppendExt(a[1..], t);
      KeepStep(a, t);
    }
  }

  lemma DropStep(a: string, t: string)
    requires |a| >= 3 && a[..3] == Ext && |t| >= 3 && t[..3] == Ext
    requires RemoveExt(a[3..] + t) == RemoveExt(a[3..]) + RemoveExt(t)
    ensures RemoveExt(a + t) == RemoveExt(a) + RemoveExt(t)
  {
    ExtAcrossJoin(a, t);
  }

  lemma KeepStep(a: string, t: string)
    requires a != [] && !(|a| >= 3 && a[..3] == Ext) && |t| >= 3 && t[..3] == Ext
    requires RemoveExt(a[1..] + t) == RemoveExt(a[1..]) + RemoveExt(t)
    ensures RemoveExt(a + t) == RemoveExt(a) + RemoveExt(t)
  {
    NoExtAcrossJoin(a, t);
    RemoveExtKeepsHead(a);
    Assoc([a[0]], RemoveExt(a[1..]), RemoveExt(t));
  }

  /** An occurrence at the start of `a` is dropped whatever follows. */
  lemma ExtAcrossJoin(a: string, t: string)
    requires |a| >= 3 && a[..3] == Ext
    ensures RemoveExt(a + t) == RemoveExt(a[3..] + t)
  {
    var s := a + t;
    assert s[..3] == Ext && s[3..] == a[3..] + t;
  }

  /** An occurrence at the very start of `a + t` lies inside `a`, because
      '.' is neither 'g' nor 'z'. */
  lemma NoExtAcrossJoin(a: string, t: string)
    requires a != [] && !(|a| >= 3 && a[..3] == Ext)
    requires |t| >= 3 && t[..3] == Ext
    ensures RemoveExt(a + t) == [a[0]] + RemoveExt(a[1..] + t)
  {
    var s := a + t;
    NoExtAtJoin(a, t);
    assert s[1..] == a[1..] + t;
    RemoveExtStep(s);
  }

  lemma NoExtAtJoin(a: string, t: string)
    requires a != [] && !(|a| >= 3 && a[..3] == Ext)
    requires |t| >= 3 && t[..3] == Ext
    ensures |a + t| >= 3 && (a + t)[..3] != Ext
  {
    var s := a + t;
    assert t[0] == '.';
    if |a| >= 3 {
      assert s[..3] == a[..3];
    } else if |a| == 1 {
      assert s[..3][1] == t[0];
    } else {
      assert s[..3][2] == t[0];
    }
  }

  lemma RemoveExtStep(s: string)
    requires |s| >= 3 && s[..3] != Ext
    ensures RemoveExt(s) == [s[0]] + RemoveExt(s[1..])
  {
  }

  lemma RemoveExtKeepsHead(a: string)
    requires a != [] && !(|a| >= 3 && a[..3] == Ext)
    ensures RemoveExt(a) == [a[0]] + RemoveExt(a[1..])
  {
    if |a| < 3 {
      assert a == [a[0]] + a[1..];
    }
  }

  /** "a.gz.txt" goes out as "a.gz.txt.gz" and comes back as "a.txt". */
  lemma InnerExtLost()
    ensures CompressedName("a.gz.txt") == "a.gz.txt.gz"
    ensures DecompressedName("a.gz.txt.gz") == "a.txt"
  {
    var t := ['t'] + (['x'] + (['t'] + Ext));
    assert "a.gz.txt.gz" == ['a'] + (Ext + (['.'] + t));
    RemoveExtExt([]);
    assert Ext + [] == Ext;
    RemoveExtCons('t', Ext);
    RemoveExtCons('x', ['t'] + Ext);
    RemoveExtCons('t', ['x'] + (['t'] + Ext));
    RemoveExtCons('.', t);
    RemoveExtExt(['.'] + t);
    RemoveExtCons('a', Ext + (['.'] + t));
    ShortName();
  }

  lemma ShortName()
    ensures ['a'] + (['.'] + (['t'] + (['x'] + (['t'] + [])))) == "a.txt"
  {
  }
}
