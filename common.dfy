/** Values and Python library behaviour shared by both scripts. */
module Common {

  datatype Option<T> = None | Some(value: T)

  /** Raw bytes of a downloaded file. */
  type Bytes = seq<bv8>

  /**
   * `os.path.join(dir, name)` on POSIX: an absolute `name` replaces `dir`,
   * otherwise a single `/` separates the two unless `dir` is empty or
   * already ends with one.
   */
  function JoinPath(dir: string, name: string): string
  {
    if |name| > 0 && name[0] == '/' then name
    else if dir == [] || dir[|dir| - 1] == '/' then dir + name
    else dir + "/" + name
  }

  /**
   * The joined path ends with `name`; an absolute `name` replaces `dir`, and
   * otherwise the path starts with `dir`, so the name is placed inside it.
   */
  lemma JoinPathPlacesName(dir: string, name: string)
    ensures var r := JoinPath(dir, name);
            && |name| <= |r| && r[|r| - |name|..] == name
            && (|name| > 0 && name[0] == '/' ==> r == name)
            && ((|name| == 0 || name[0] != '/') ==> |r| >= |dir| && r[..|dir|] == dir)
  {
  }

  function Digit(d: nat): (c: char)
    requires d < 10
    ensures '0' <= c <= '9'
  {
    ('0' as int + d) as char
  }

  /** The decimal digits of `n`, most significant first, as `str(n)` writes them. */
  function DecimalDigits(n: nat): (r: string)
    ensures |r| >= 1
    ensures forall i :: 0 <= i < |r| ==> '0' <= r[i] <= '9'
    decreases n
  {
    if n < 10 then [Digit(n)] else DecimalDigits(n / 10) + [Digit(n % 10)]
  }

  /** `str(i)` for a Python `int`. */
  function IntToStr(i: int): (r: string)
    ensures |r| >= 1
    ensures (r[0] == '-') == (i < 0)
  {
    if i < 0 then "-" + DecimalDigits(-i) else DecimalDigits(i)
  }
}
