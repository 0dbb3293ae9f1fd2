/**
 * The two extension tests of main.py: `allowed_file`, which the upload
 * route applies to the client's filename, and the filter of `list_files`,
 * which decides which directory entries are listed.
 */
module Validator {
  import opened Wrappers
  import opened Ascii

  /** The extensions `allowed_file` accepts, after lowercasing. */
  const JpegExtensions: set<string> := {"jpeg", "jpg"}

  /** Position of the last occurrence of `c` in `s`, if there is one. */
  function LastIndexOf(s: string, c: char): (r: Option<nat>)
    ensures r.None? <==> c !in s
    ensures r.Some? ==> r.value < |s| && s[r.value] == c && c !in s[r.value + 1..]
    decreases |s|
  {
    if |s| == 0 then None
    else if s[|s| - 1] == c then Some(|s| - 1)
    else
      var r := LastIndexOf(s[..|s| - 1], c);
      assert r.Some? ==> s[r.value + 1..] == s[..|s| - 1][r.value + 1..] + [s[|s| - 1]];
      assert r.None? ==> s == s[..|s| - 1] + [s[|s| - 1]];
      r
  }

  /**
   * Python's `s.rsplit(sep, 1)`: the whole string when `sep` does not occur,
   * otherwise the text before and the text after the LAST `sep`.
   */
  function RSplitOnce(s: string, sep: char): (parts: seq<string>)
    ensures 1 <= |parts| <= 2
    ensures |parts| == 1 <==> sep !in s
    ensures |parts| == 1 ==> parts[0] == s
    ensures |parts| == 2 ==> parts[0] + [sep] + parts[1] == s && sep !in parts[1]
  {
    match LastIndexOf(s, sep)
    case None => [s]
    case Some(k) =>
      assert s == s[..k] + [sep] + s[k + 1..];
      [s[..k], s[k + 1..]]
  }

  /**
   * `allowed_file`: the name holds a '.' and the part after the last '.',
   * lowercased, is "jpeg" or "jpg". The '.' test guards the index, as the
   * short-circuit `and` does in the source.
   */
  predicate AllowedFile(filename: string)
    ensures AllowedFile(filename) ==> '.' in filename && 4 <= |filename|
  {
    '.' in filename && Lower(RSplitOnce(filename, '.')[1]) in JpegExtensions
  }

  /** Python's `s.endswith(suffix)`. */
  predicate EndsWith(s: string, suffix: string)
    ensures EndsWith(s, suffix) <==> exists k :: 0 <= k <= |s| && s[k..] == suffix
  {
    |suffix| <= |s| && s[|s| - |suffix|..] == suffix
  }

  /** The test of the `list_files` comprehension: `f.lower().endswith(('.jpeg', '.jpg'))`. */
  predicate ListedName(f: string)
    ensures ListedName(f) ==> '.' in f && 4 <= |f|
  {
    var lower := Lower(f);
    assert EndsWith(lower, ".jpeg") ==> lower[|f| - 5] == '.' && f[|f| - 5] == '.';
    assert EndsWith(lower, ".jpg") ==> lower[|f| - 4] == '.' && f[|f| - 4] == '.';
    EndsWith(lower, ".jpeg") || EndsWith(lower, ".jpg")
  }

  /** `a` is `b` with some elements dropped and the rest kept in order. */
  ghost predicate IsSubsequence<T>(a: seq<T>, b: seq<T>)
    decreases |b|
  {
    if b == [] then a == []
    else IsSubsequence(a, b[1..]) || (a != [] && a[0] == b[0] && IsSubsequence(a[1..], b[1..]))
  }

  /** No name occurs twice. */
  predicate Distinct<T(==)>(s: seq<T>)
  {
    forall i, j :: 0 <= i < j < |s| ==> s[i] != s[j]
  }

  /**
   * The `list_files` comprehension over a directory enumeration: the entries
   * that pass `ListedName`, in enumeration order, each as often as it occurs.
   */
  function ListedNames(entries: seq<string>): (names: seq<string>)
    ensures IsSubsequence(names, entries)
    ensures forall f :: f in names <==> f in entries && ListedName(f)
    ensures forall f :: multiset(names)[f] == if ListedName(f) then multiset(entries)[f] else 0
  {
    if entries == [] then []
    else
      var rest := ListedNames(entries[1..]);
      assert entries == [entries[0]] + entries[1..];
      if ListedName(entries[0]) then
        assert ([entries[0]] + rest)[1..] == rest;
        [entries[0]] + rest
      else rest
  }

  /** A subsequence of a list without repetitions has none either. */
  lemma {:induction false} SubsequenceDistinct<T>(a: seq<T>, b: seq<T>)
    requires IsSubsequence(a, b) && Distinct(b)
    ensures Distinct(a)
    decreases |b|
  {
    if b != [] {
      assert Distinct(b[1..]) by {
        forall i, j | 0 <= i < j < |b[1..]| ensures b[1..][i] != b[1..][j] {
          assert b[1..][i] == b[i + 1] && b[1..][j] == b[j + 1];
        }
      }
      if IsSubsequence(a, b[1..]) {
        SubsequenceDistinct(a, b[1..]);
      } else {
        SubsequenceDistinct(a[1..], b[1..]);
        SubsequenceElements(a[1..], b[1..]);
        forall i, j | 0 <= i < j < |a| ensures a[i] != a[j] {
          if i == 0 {
            assert a[j] == a[1..][j - 1];
            assert a[j] in b[1..];
            var k :| 0 <= k < |b[1..]| && b[1..][k] == a[j];
            assert b[k + 1] == a[j];
          } else {
            assert a[i] == a[1..][i - 1] && a[j] == a[1..][j - 1];
          }
        }
      }
    }
  }

  /** Every element of a subsequence comes from the original sequence. */
  lemma {:induction false} SubsequenceElements<T>(a: seq<T>, b: seq<T>)
    requires IsSubsequence(a, b)
    ensures forall x :: x in a ==> x in b
    decreases |b|
  {
    if b != [] {
      if IsSubsequence(a, b[1..]) {
        SubsequenceElements(a, b[1..]);
      } else {
        SubsequenceElements(a[1..], b[1..]);
        assert a == [a[0]] + a[1..];
      }
    }
  }

  /**
   * `allowed_file` holds exactly when the name has a '.' whose following
   * text contains no further '.' and lowercases to "jpeg" or "jpg".
   */
  lemma AllowedFileCharacterised(f: string)
    ensures AllowedFile(f) <==>
      exists k :: 0 <= k < |f| && f[k] == '.' && '.' !in f[k + 1..] && Lower(f[k + 1..]) in JpegExtensions
  {
    if AllowedFile(f) {
      var parts := RSplitOnce(f, '.');
      var k := |parts[0]|;
      assert f[k] == '.' && f[k + 1..] == parts[1];
    }
    if exists k :: 0 <= k < |f| && f[k] == '.' && '.' !in f[k + 1..] && Lower(f[k + 1..]) in JpegExtensions {
      var k :| 0 <= k < |f| && f[k] == '.' && '.' !in f[k + 1..] && Lower(f[k + 1..]) in JpegExtensions;
      LastDotIsUnique(f, k);
    }
  }

  /** A '.' with no '.' after it is where `rsplit('.', 1)` cuts. */
  lemma LastDotIsUnique(f: string, k: nat)
    requires k < |f| && f[k] == '.' && '.' !in f[k + 1..]
    ensures '.' in f && RSplitOnce(f, '.') == [f[..k], f[k + 1..]]
  {
    assert f[k] in f;
    var parts := RSplitOnce(f, '.');
    var m := |parts[0]|;
    assert f[m] == '.' && f[m + 1..] == parts[1];
    assert forall j :: m < j < |f| ==> f[j] == parts[1][j - m - 1];
    assert forall j :: k < j < |f| ==> f[j] == f[k + 1..][j - k - 1];
    assert parts[0] == f[..k];
  }

  /**
   * When the lowercased name ends in '.' followed by a '.'-free `ext`, that
   * '.' is the last one of the name and the text after it lowercases to `ext`.
   */
  lemma DotBeforeSuffix(f: string, k: nat, ext: string)
    requires k < |f| && Lower(f)[k..] == ['.'] + ext && '.' !in ext
    ensures f[k] == '.' && '.' !in f[k + 1..] && Lower(f[k + 1..]) == ext
  {
    var lower := Lower(f);
    assert lower[k] == '.';
    LowerKeepsDots(f[k]);
    forall j | k + 1 <= j < |f| ensures f[j] != '.' {
      assert lower[j] == ext[j - k - 1];
      LowerKeepsDots(f[j]);
    }
    LowerSuffix(f, k + 1);
  }

  /** The name `list_files` keeps passes `allowed_file`. */
  lemma ListedIsAllowed(f: string)
    requires ListedName(f)
    ensures AllowedFile(f)
  {
    var lower := Lower(f);
    var ext := if EndsWith(lower, ".jpeg") then "jpeg" else "jpg";
    var k := |f| - |ext| - 1;
    assert lower[k..] == ['.'] + ext;
    DotBeforeSuffix(f, k, ext);
    LastDotIsUnique(f, k);
  }

  /** "." followed by an accepted extension is one of the suffixes `list_files` looks for. */
  lemma JpegSuffix(lower: string, ext: string)
    requires ext in JpegExtensions && EndsWith(lower, ['.'] + ext)
    ensures EndsWith(lower, ".jpeg") || EndsWith(lower, ".jpg")
  {
    if ext == "jpeg" {
      assert ['.'] + ext == ".jpeg";
    } else {
      assert ['.'] + ext == ".jpg";
    }
  }

  /** Lowercasing a name from one of its '.' onwards gives '.' and the lowercased rest. */
  lemma LowerFromDot(f: string, k: nat)
    requires k < |f| && f[k] == '.'
    ensures Lower(f)[k..] == ['.'] + Lower(f[k + 1..])
  {
    LowerSuffix(f, k + 1);
    assert Lower(f)[k..] == [Lower(f)[k]] + Lower(f)[k + 1..];
  }

  /** The name `allowed_file` accepts is kept by `list_files`. */
  lemma AllowedIsListed(f: string)
    requires AllowedFile(f)
    ensures ListedName(f)
  {
    var parts := RSplitOnce(f, '.');
    var k := |parts[0]|;
    assert f[k] == '.' && f[k + 1..] == parts[1];
    LowerFromDot(f, k);
    JpegSuffix(Lower(f), Lower(parts[1]));
  }

  /**
   * The two extension tests agree: a name is listed by `list_files` exactly
   * when `allowed_file` accepts it.
   */
  lemma ListingAgreesWithValidator(f: string)
    ensures ListedName(f) <==> AllowedFile(f)
  {
    if ListedName(f) {
      ListedIsAllowed(f);
    }
    if AllowedFile(f) {
      AllowedIsListed(f);
    }
  }

  /** Everything `list_files` returns passes `allowed_file`, and every accepted entry is returned. */
  lemma ListedNamesAreAllowed(entries: seq<string>)
    ensures forall f :: f in ListedNames(entries) <==> f in entries && AllowedFile(f)
  {
    forall f {
      ListingAgreesWithValidator(f);
    }
  }

  /** For a name whose last '.' is at `k`, `allowed_file` is the test of the text after it. */
  lemma AllowedAtLastDot(f: string, k: nat)
    requires k < |f| && f[k] == '.' && '.' !in f[k + 1..]
    ensures AllowedFile(f) <==> Lower(f[k + 1..]) in JpegExtensions
  {
    LastDotIsUnique(f, k);
  }

  /** A string without upper-case letters is its own lowercase form. */
  lemma {:induction false} LowerOfLowercase(s: string)
    requires forall i :: 0 <= i < |s| ==> !IsUpper(s[i])
    ensures Lower(s) == s
  {
  }

  /** Names the validator accepts: any letter case, several dots, an empty stem. */
  lemma AcceptedExamples()
    ensures AllowedFile("a.JPG")
    ensures AllowedFile("holiday.tar.Jpeg")
    ensures AllowedFile(".jpg")
  {
    AcceptedUpperCase();
    AcceptedSeveralDots();
    AcceptedEmptyStem();
  }

  lemma AcceptedUpperCase()
    ensures AllowedFile("a.JPG")
  {
    assert "a.JPG"[2..] == "JPG";
    AllowedAtLastDot("a.JPG", 1);
    assert Lower("JPG") == "jpg";
  }

  lemma AcceptedSeveralDots()
    ensures AllowedFile("holiday.tar.Jpeg")
  {
    assert "holiday.tar.Jpeg"[12..] == "Jpeg";
    AllowedAtLastDot("holiday.tar.Jpeg", 11);
    assert Lower("Jpeg") == "jpeg";
  }

  lemma AcceptedEmptyStem()
    ensures AllowedFile(".jpg")
  {
    assert ".jpg"[1..] == "jpg";
    AllowedAtLastDot(".jpg", 0);
    LowerOfLowercase("jpg");
  }

  /** Names the validator rejects: another extension, no dot, a bare "jpg", JPEG not last. */
  lemma RejectedExamples()
    ensures !AllowedFile("a.png")
    ensures !AllowedFile("noext")
    ensures !AllowedFile("jpg")
    ensures !AllowedFile("a.jpg.png")
  {
    RejectedOtherExtension();
    RejectedNoDot();
    RejectedJpegNotLast();
  }

  lemma RejectedOtherExtension()
    ensures !AllowedFile("a.png")
  {
    assert "a.png"[2..] == "png";
    AllowedAtLastDot("a.png", 1);
    LowerOfLowercase("png");
  }

  lemma RejectedNoDot()
    ensures !AllowedFile("noext") && !AllowedFile("jpg")
  {
    assert forall i :: 0 <= i < 5 ==> "noext"[i] != '.';
    assert forall i :: 0 <= i < 3 ==> "jpg"[i] != '.';
  }

  lemma RejectedJpegNotLast()
    ensures !AllowedFile("a.jpg.png")
  {
    assert "a.jpg.png"[6..] == "png";
    AllowedAtLastDot("a.jpg.png", 5);
    LowerOfLowercase("png");
  }

  /** The listing test on the three names of the example below. */
  lemma ListedNameExamples()
    ensures ListedName("a.jpg") && ListedName("b.jpeg") && !ListedName("c.txt")
  {
    LowerOfLowercase("a.jpg");
    assert "a.jpg"[1..] == ".jpg";
    LowerOfLowercase("b.jpeg");
    assert "b.jpeg"[1..] == ".jpeg";
    LowerOfLowercase("c.txt");
    assert "c.txt"[1..] == ".txt" && "c.txt"[0..] != ".jpeg";
  }

  /** Listing a directory that holds "a.jpg", "b.jpeg" and "c.txt" shows only the two images, in order. */
  lemma ListingExample()
    ensures ListedNames(["a.jpg", "b.jpeg", "c.txt"]) == ["a.jpg", "b.jpeg"]
  {
    ListedNameExamples();
    var entries := ["a.jpg", "b.jpeg", "c.txt"];
    assert entries[1..] == ["b.jpeg", "c.txt"] && entries[1..][1..] == ["c.txt"] && entries[1..][1..][1..] == [];
    assert ListedNames(["c.txt"]) == [];
    assert ListedNames(["b.jpeg", "c.txt"]) == ["b.jpeg"];
  }
}
