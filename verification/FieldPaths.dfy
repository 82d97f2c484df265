/** Field paths as text, and why distinct fields have distinct texts. */
module FieldPaths {
  import opened Common
  import opened Characters

  // Decimal numbers

  function Digit(n: nat): char
    requires n < 10
  {
    ('0' as int + n) as char
  }

  predicate AllDigits(text: string) {
    forall i :: 0 <= i < |text| ==> IsDigit(text[i])
  }

  function Decimal(n: nat): (r: string)
    ensures r != "" && AllDigits(r)
  {
    if n < 10 then [Digit(n)] else Decimal(n / 10) + [Digit(n % 10)]
  }

  function ValueOf(text: string): nat
    requires AllDigits(text)
  {
    if text == "" then 0 else 10 * ValueOf(Init(text)) + (Last(text) as int - '0' as int)
  }

  lemma {:induction false} DecimalHasValue(n: nat)
    ensures ValueOf(Decimal(n)) == n
  {
    if n < 10 {
      assert Init([Digit(n)]) == "";
    } else {
      DecimalHasValue(n / 10);
      assert Init(Decimal(n)) == Decimal(n / 10);
    }
  }

  /** Numbers are written without leading zeros. */
  lemma {:induction false} DecimalIsShortest(n: nat)
    ensures Decimal(n)[0] == '0' ==> n == 0 && Decimal(n) == "0"
  {
    if n >= 10 {
      DecimalIsShortest(n / 10);
      assert Decimal(n)[0] == Decimal(n / 10)[0];
    }
  }

  // Paths

  function ItemPath(parent: string, index: nat): string {
    parent + "[" + Decimal(index) + "]"
  }

  function ChildPath(parent: string, key: string): string {
    if parent == "$" then key else parent + "." + key
  }

  /** One step from a value to a part of it. */
  datatype Step = Key(key: string) | Index(index: nat)

  function StepPath(parent: string, step: Step): string {
    match step
    case Key(key) => ChildPath(parent, key)
    case Index(i) => ItemPath(parent, i)
  }

  function RenderPath(steps: seq<Step>): string {
    if steps == [] then "$" else StepPath(RenderPath(Init(steps)), Last(steps))
  }

  /** A key of lowercase letters, as all keys of the policy schema are. */
  predicate SimpleKey(key: string) {
    key != "" && forall i :: 0 <= i < |key| ==> 'a' <= key[i] <= 'z'
  }

  predicate SimpleStep(step: Step) {
    step.Key? ==> SimpleKey(step.key)
  }

  predicate SimpleSteps(steps: seq<Step>) {
    forall i :: 0 <= i < |steps| ==> SimpleStep(steps[i])
  }

  lemma SimpleInit(steps: seq<Step>)
    requires SimpleSteps(steps) && steps != []
    ensures SimpleSteps(Init(steps)) && SimpleStep(Last(steps))
  {
    forall i | 0 <= i < |Init(steps)| ensures SimpleStep(Init(steps)[i]) {
      assert Init(steps)[i] == steps[i];
    }
  }

  /** The last occurrence of a separator that the tail does not hold is where the tail starts. */
  lemma SplitAtLast(a: string, b: string, c: char, x: string, y: string)
    requires c !in x && c !in y
    requires a + [c] + x == b + [c] + y
    ensures a == b && x == y
  {
    var whole := a + [c] + x;
    assert whole == b + [c] + y;
    assert whole[|a|] == c && whole[|b|] == c;
    assert whole[|a| + 1..] == x && whole[|b| + 1..] == y;
    assert forall i :: |a| < i < |whole| ==> whole[i] in whole[|a| + 1..];
    assert forall i :: |b| < i < |whole| ==> whole[i] in whole[|b| + 1..];
    assert whole[..|a|] == a && whole[..|b|] == b;
  }

  lemma EndOfPath(steps: seq<Step>)
    requires SimpleSteps(steps)
    ensures RenderPath(steps) != ""
    ensures steps != [] ==> RenderPath(steps) != "$"
    ensures steps != [] ==> (Last(steps).Index? <==> RenderPath(steps)[|RenderPath(steps)| - 1] == ']')
  {
    if steps != [] {
      SimpleInit(steps);
      StepPathEnds(RenderPath(Init(steps)), Last(steps));
    }
  }

  lemma StepPathEnds(parent: string, step: Step)
    requires SimpleStep(step)
    ensures var path := StepPath(parent, step);
            path != "" && path != "$" && (step.Index? <==> path[|path| - 1] == ']')
  {
    hide Decimal;
    var path := StepPath(parent, step);
    match step
    case Index(i) =>
      assert path[|path| - 1] == ']';
    case Key(key) =>
      assert path[|path| - 1] == key[|key| - 1];
      assert 'a' <= key[|key| - 1] <= 'z';
  }

  lemma ItemPathIsInjective(a: string, i: nat, b: string, j: nat)
    requires ItemPath(a, i) == ItemPath(b, j)
    ensures a == b && i == j
  {
    var x, y := Decimal(i), Decimal(j);
    var left, right := a + "[" + x, b + "[" + y;
    assert ItemPath(a, i)[..|left|] == left && ItemPath(b, j)[..|right|] == right;
    assert |left| == |right|;
    assert '[' !in x && '[' !in y;
    SplitAtLast(a, b, '[', x, y);
    DecimalHasValue(i);
    DecimalHasValue(j);
  }

  lemma ChildPathIsInjective(a: seq<Step>, k: string, b: seq<Step>, l: string)
    requires SimpleSteps(a) && SimpleSteps(b) && SimpleKey(k) && SimpleKey(l)
    requires ChildPath(RenderPath(a), k) == ChildPath(RenderPath(b), l)
    ensures RenderPath(a) == RenderPath(b) && k == l
  {
    EndOfPath(a);
    EndOfPath(b);
    assert '.' !in k && '.' !in l;
    assert RenderPath(a) != "$" ==> '.' in ChildPath(RenderPath(a), k);
    assert RenderPath(b) != "$" ==> '.' in ChildPath(RenderPath(b), l);
    if a != [] && b != [] {
      SplitAtLast(RenderPath(a), RenderPath(b), '.', k, l);
    }
  }

  /** Distinct positions have distinct paths, as long as all keys are simple. */
  lemma {:induction false} RenderPathIsInjective(a: seq<Step>, b: seq<Step>)
    requires SimpleSteps(a) && SimpleSteps(b) && RenderPath(a) == RenderPath(b)
    ensures a == b
    decreases |a|
  {
    EndOfPath(a);
    EndOfPath(b);
    if a != [] && b != [] {
      SimpleInit(a);
      SimpleInit(b);
      match Last(a)
      case Index(i) =>
        ItemPathIsInjective(RenderPath(Init(a)), i, RenderPath(Init(b)), Last(b).index);
        RenderPathIsInjective(Init(a), Init(b));
      case Key(k) =>
        ChildPathIsInjective(Init(a), k, Init(b), Last(b).key);
        RenderPathIsInjective(Init(a), Init(b));
    }
  }

  /** Paths grow by a dot and a key or by an index in brackets; the document itself is `$`, and a
      key of it stands alone. */
  lemma PathsInFull(steps: seq<Step>, key: string, i: nat)
    ensures RenderPath([]) == "$" && RenderPath([Key(key)]) == key
    ensures RenderPath(steps) != "$" ==> RenderPath(steps + [Key(key)]) == RenderPath(steps) + "." + key
    ensures RenderPath(steps + [Index(i)]) == RenderPath(steps) + "[" + Decimal(i) + "]"
  {
    hide Decimal;
    assert Init([Key(key)]) == [];
    assert Init(steps + [Key(key)]) == steps && Init(steps + [Index(i)]) == steps;
  }
}
