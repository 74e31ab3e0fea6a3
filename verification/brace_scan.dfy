/** The first match of the regular expression `\{(.*?)\}` in a line, as
    `re.findall(...)[0]` yields it: `.` matches anything but a line feed, and
    the lazy `*?` stops at the first closing brace. */
module BraceScan {
  import opened Wrappers

  /** `line[j]` is the first `}` at or after `k`, with no line feed before
      it. */
  predicate ClosesAt(line: string, k: nat, j: nat) {
    k <= j < |line| && line[j] == '}' &&
    forall m :: k <= m < j ==> line[m] != '}' && line[m] != '\n'
  }

  /** The pattern matches with its opening brace at `i` and its closing
      brace at `j`; the captured body is `line[i + 1..j]`. */
  predicate IsMatch(line: string, i: nat, j: nat) {
    i < |line| && line[i] == '{' && ClosesAt(line, i + 1, j)
  }

  /** The lazy body scan from `k`: the closing brace, or nothing when a line
      feed or the end of the line comes first. */
  function FindClose(line: string, k: nat): (r: Option<nat>)
    requires k <= |line|
    ensures r.Some? ==> ClosesAt(line, k, r.value)
    ensures r.None? ==> forall j :: !ClosesAt(line, k, j)
    decreases |line| - k
  {
    if k == |line| then None
    else if line[k] == '}' then Some(k)
    else if line[k] == '\n' then None
    else
      assert forall j :: ClosesAt(line, k, j) ==> ClosesAt(line, k + 1, j);
      FindClose(line, k + 1)
  }

  /** Tries every start position from `i` on, leftmost first, as the regular
      expression engine does. */
  function FirstMatchFrom(line: string, i: nat): (r: Option<(nat, nat)>)
    requires i <= |line|
    ensures r.Some? ==> i <= r.value.0 && IsMatch(line, r.value.0, r.value.1)
    ensures r.Some? ==> forall a: nat, b: nat :: i <= a < r.value.0 ==> !IsMatch(line, a, b)
    ensures r.None? ==> forall a: nat, b: nat :: i <= a ==> !IsMatch(line, a, b)
    decreases |line| - i
  {
    if i == |line| then None
    else if line[i] == '{' then
      match FindClose(line, i + 1)
      case Some(j) => Some((i, j))
      case None => FirstMatchFrom(line, i + 1)
    else FirstMatchFrom(line, i + 1)
  }

  /** The body of the first match, or nothing when the pattern does not
      match anywhere in the line (see `FirstBraceBodySpec`). A body is
      shorter than the line by at least its two braces and holds no closing
      brace and no line feed. */
  function FirstBraceBody(line: string): (r: Option<string>)
    ensures r.Some? ==> |r.value| + 2 <= |line|
    ensures r.Some? ==> '}' !in r.value && '\n' !in r.value
  {
    match FirstMatchFrom(line, 0)
    case None => None
    case Some((i, j)) => Some(line[i + 1..j])
  }

  /** The captured body is the one of the leftmost opening brace that has a
      match; it may contain `{` but never `}` or a line feed. There is no body
      exactly when the pattern matches nowhere. */
  lemma FirstBraceBodySpec(line: string)
    ensures FirstBraceBody(line).None? <==> forall i: nat, j: nat :: !IsMatch(line, i, j)
    ensures FirstBraceBody(line).Some? ==> exists i: nat, j: nat ::
      && IsMatch(line, i, j)
      && FirstBraceBody(line).value == line[i + 1..j]
      && (forall a: nat, b: nat :: a < i ==> !IsMatch(line, a, b))
    ensures FirstBraceBody(line).Some? ==> forall c :: c in FirstBraceBody(line).value ==> c != '}' && c != '\n'
  {
  }
}
