/** The numbered output names of the splitting commands: commons-io FilenameUtils.removeExtension
  * and getExtension around String.format("-%04d.", n). */
module FileNames {
  import opened JavaText
  import TableFactory

  /** FilenameUtils.removeExtension: the name without its last '.' and what follows, when that
    * '.' comes after the last separator; otherwise the whole name. */
  function RemoveExtension(name: string): (r: string)
    ensures |r| == |name| ==> r == name
    ensures |r| < |name| ==> r + "." + TableFactory.Extension(name) == name
    ensures |r| <= |name|
  {
    var dot := TableFactory.LastIndexOf(name, '.');
    if dot < 0 || TableFactory.LastSeparator(name) > dot then name
    else
      assert TableFactory.Extension(name) == name[dot + 1..];
      SplitAtDot(name, dot);
      name[..dot]
  }

  lemma SplitAtDot(name: string, dot: nat)
    requires dot < |name| && name[dot] == '.'
    ensures name[..dot] + "." + name[dot + 1..] == name
  {
    assert name == name[..dot] + [name[dot]] + name[dot + 1..];
  }

  /** The name of the output with number n: stem, "-", n in at least four digits, ".", extension. */
  function NumberedName(output: string, n: nat): string {
    (RemoveExtension(output) + "-") + ZeroPad(n, 4) + ("." + TableFactory.Extension(output))
  }

  /** The numbered names keep the output's extension, so the parts are of the output's type. */
  lemma NumberedNameKeepsExtension(output: string, n: nat)
    ensures TableFactory.Extension(NumberedName(output, n)) == TableFactory.Extension(output)
  {
    var ext := TableFactory.Extension(output);
    var name := NumberedName(output, n);
    if |ext| > 0 {
      assert name[|name| - |ext| - 1..] == "." + ext;
      TableFactory.EndingGivesExtension(name, ext);
    } else {
      assert name[|name| - 1] == '.';
      assert TableFactory.LastIndexOf(name, '.') == |name| - 1;
    }
  }

  /** Strings that differ only in their middle part differ when the middle parts do. */
  lemma MiddleDiffers(u: string, v: string, v': string, w: string)
    requires v != v'
    ensures u + v + w != u + v' + w
  {
    if |v| == |v'| {
      assert (u + v + w)[|u|..|u| + |v|] == v;
      assert (u + v' + w)[|u|..|u| + |v'|] == v';
    } else {
      assert |u + v + w| != |u + v' + w|;
    }
  }

  /** Different numbers give different names, so no part overwrites another. */
  lemma NumberedNameInjective(output: string, m: nat, n: nat)
    requires m != n
    ensures NumberedName(output, m) != NumberedName(output, n)
  {
    ZeroPadValue(m, 4);
    ZeroPadValue(n, 4);
    MiddleDiffers(RemoveExtension(output) + "-", ZeroPad(m, 4), ZeroPad(n, 4), "." + TableFactory.Extension(output));
  }
}
