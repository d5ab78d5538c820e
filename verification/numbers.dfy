/**
 * `isNumber` (main.go): a sheet name qualifies for extraction when Go's
 * `json.Unmarshal` accepts it as a `json.Number`. The decoder accepts a JSON
 * number literal (section 6 of RFC 8259), the literal `null` (ignored for a
 * string-kinded target), or a JSON string whose contents are a number
 * literal, each optionally surrounded by JSON whitespace.
 */
module Numbers {
  import opened Objects

  predicate IsDigit(c: char) { '0' <= c <= '9' }

  /** The four whitespace characters of section 2 of RFC 8259. */
  predicate IsJsonSpace(c: char) { c == ' ' || c == '\t' || c == '\n' || c == '\r' }

  // ---- The grammar of section 6 of RFC 8259, stated declaratively ----

  ghost predicate Digits(s: string)
  {
    |s| > 0 && forall i :: 0 <= i < |s| ==> IsDigit(s[i])
  }

  /** int = zero / ( digit1-9 *DIGIT ) */
  ghost predicate IntPart(s: string)
  {
    s == "0" || (Digits(s) && s[0] != '0')
  }

  /** frac = [ decimal-point 1*DIGIT ] */
  ghost predicate FracPart(s: string)
  {
    s == "" || (|s| > 1 && s[0] == '.' && Digits(s[1..]))
  }

  /** exp = [ e [ minus / plus ] 1*DIGIT ] */
  ghost predicate ExpPart(s: string)
  {
    || s == ""
    || (&& |s| > 1
        && (s[0] == 'e' || s[0] == 'E')
        && (Digits(s[1..]) || (|s| > 2 && (s[1] == '+' || s[1] == '-') && Digits(s[2..]))))
  }

  /** int frac exp */
  ghost predicate Unsigned(t: string)
  {
    exists i, j :: 0 <= i <= j <= |t| && IntPart(t[..i]) && FracPart(t[i..j]) && ExpPart(t[j..])
  }

  /** number = [ minus ] int frac exp */
  ghost predicate NumberLiteral(s: string)
  {
    Unsigned(if |s| > 0 && s[0] == '-' then s[1..] else s)
  }

  // ---- A left-to-right scanner for the same grammar ----

  /** The end of the run of digits that starts at `k`. */
  function DigitsEnd(s: string, k: nat): (e: nat)
    requires k <= |s|
    ensures k <= e <= |s|
    ensures forall i :: k <= i < e ==> IsDigit(s[i])
    ensures e < |s| ==> !IsDigit(s[e])
    decreases |s| - k
  {
    if k < |s| && IsDigit(s[k]) then DigitsEnd(s, k + 1) else k
  }

  /** Where the integer part at the front of `s` ends, if there is one. */
  function ScanInt(s: string): (r: Option<nat>)
    ensures r.Some? ==> 0 < r.value <= |s|
  {
    if 0 < |s| && s[0] == '0' then Some(1)
    else if 0 < |s| && IsDigit(s[0]) then Some(DigitsEnd(s, 0))
    else None
  }

  /** Where the (possibly empty) fraction starting at `k` ends, if it is well formed. */
  function ScanFrac(s: string, k: nat): (r: Option<nat>)
    requires k <= |s|
    ensures r.Some? ==> k <= r.value <= |s|
  {
    if k < |s| && s[k] == '.' then
      var e := DigitsEnd(s, k + 1);
      if e > k + 1 then Some(e) else None
    else Some(k)
  }

  /** Where the (possibly empty) exponent starting at `k` ends, if it is well formed. */
  function ScanExp(s: string, k: nat): (r: Option<nat>)
    requires k <= |s|
    ensures r.Some? ==> k <= r.value <= |s|
  {
    if k < |s| && (s[k] == 'e' || s[k] == 'E') then
      var d := if k + 1 < |s| && (s[k + 1] == '+' || s[k + 1] == '-') then k + 2 else k + 1;
      var e := DigitsEnd(s, d);
      if e > d then Some(e) else None
    else Some(k)
  }

  /** Integer, fraction and exponent scanned in turn, ending exactly at the end of `t`. */
  function ScanUnsigned(t: string): bool
  {
    match ScanInt(t)
    case None => false
    case Some(a) =>
      match ScanFrac(t, a)
      case None => false
      case Some(f) => ScanExp(t, f) == Some(|t|)
  }

  /** The scanner accepts exactly the number literals of the grammar. */
  function ScanNumber(s: string): (b: bool)
    ensures b <==> NumberLiteral(s)
  {
    var t := if |s| > 0 && s[0] == '-' then s[1..] else s;
    ScanUnsignedSound(t);
    ScanUnsignedComplete(t);
    ScanUnsigned(t)
  }

  lemma ScanUnsignedSound(t: string)
    ensures ScanUnsigned(t) ==> Unsigned(t)
  {
    if ScanUnsigned(t) {
      var a := ScanInt(t).value;
      var f := ScanFrac(t, a).value;
      ScanIntSound(t);
      ScanFracSound(t, a);
      ScanExpSound(t, f);
      assert IntPart(t[..a]) && FracPart(t[a..f]) && ExpPart(t[f..]);
    }
  }

  lemma ScanIntSound(t: string)
    ensures ScanInt(t).Some? ==> IntPart(t[..ScanInt(t).value])
  {
    if ScanInt(t).Some? {
      var a := ScanInt(t).value;
      if t[0] == '0' {
        assert t[..a] == [t[0]];
      } else {
        forall i | 0 <= i < a
          ensures IsDigit(t[..a][i])
        {
          assert t[..a][i] == t[i];
        }
        assert t[..a][0] == t[0];
      }
    }
  }

  lemma ScanFracSound(t: string, k: nat)
    requires k <= |t|
    ensures ScanFrac(t, k).Some? ==> FracPart(t[k..ScanFrac(t, k).value])
  {
    if ScanFrac(t, k).Some? {
      var f := ScanFrac(t, k).value;
      if f > k {
        var x := t[k..f];
        assert x[0] == t[k];
        forall i | 0 <= i < |x[1..]|
          ensures IsDigit(x[1..][i])
        {
          assert x[1..][i] == t[k + 1 + i];
        }
      }
    }
  }

  lemma ScanExpSound(t: string, k: nat)
    requires k <= |t|
    ensures ScanExp(t, k) == Some(|t|) ==> ExpPart(t[k..])
  {
    if ScanExp(t, k) == Some(|t|) && k < |t| {
      var x := t[k..];
      var d := if k + 1 < |t| && (t[k + 1] == '+' || t[k + 1] == '-') then k + 2 else k + 1;
      assert x[0] == t[k];
      assert d == k + 2 ==> x[1] == t[k + 1];
      var y := x[d - k..];
      forall i | 0 <= i < |y|
        ensures IsDigit(y[i])
      {
        assert y[i] == t[d + i];
      }
    }
  }

  /** The digit run starting at `k` ends at `e` when `s[k..e]` is digits and `s[e]` is not. */
  lemma {:induction false} DigitsEndAt(s: string, k: nat, e: nat)
    requires k <= e <= |s|
    requires forall i :: k <= i < e ==> IsDigit(s[i])
    requires e < |s| ==> !IsDigit(s[e])
    ensures DigitsEnd(s, k) == e
    decreases e - k
  {
    if k < e {
      DigitsEndAt(s, k + 1, e);
    }
  }

  lemma ScanIntAt(t: string, i: nat)
    requires i <= |t| && IntPart(t[..i])
    requires i < |t| ==> !IsDigit(t[i])
    ensures ScanInt(t) == Some(i)
  {
    assert t[0] == t[..i][0];
    if t[..i] != "0" {
      forall k | 0 <= k < i
        ensures IsDigit(t[k])
      {
        assert t[k] == t[..i][k];
      }
      DigitsEndAt(t, 0, i);
    }
  }

  lemma ScanFracAt(t: string, i: nat, j: nat)
    requires i <= j <= |t| && FracPart(t[i..j])
    requires j < |t| ==> !IsDigit(t[j])
    requires i == j && i < |t| ==> t[i] != '.'
    ensures ScanFrac(t, i) == Some(j)
  {
    if i < j {
      assert t[i] == t[i..j][0];
      forall k | i + 1 <= k < j
        ensures IsDigit(t[k])
      {
        assert t[k] == t[i..j][1..][k - i - 1];
      }
      DigitsEndAt(t, i + 1, j);
    }
  }

  lemma ScanExpAt(t: string, j: nat)
    requires j <= |t| && ExpPart(t[j..])
    ensures ScanExp(t, j) == Some(|t|)
  {
    var x := t[j..];
    if x != "" {
      assert t[j] == x[0];
      assert t[j + 1] == x[1];
      var d := if x[1] == '+' || x[1] == '-' then j + 2 else j + 1;
      forall k | d <= k < |t|
        ensures IsDigit(t[k])
      {
        assert t[k] == x[k - j];
      }
      DigitsEndAt(t, d, |t|);
    }
  }

  lemma ScanUnsignedComplete(t: string)
    ensures Unsigned(t) ==> ScanUnsigned(t)
  {
    if Unsigned(t) {
      var i, j :| 0 <= i <= j <= |t| && IntPart(t[..i]) && FracPart(t[i..j]) && ExpPart(t[j..]);
      // what follows the integer part opens the fraction or the exponent, and
      // what follows the fraction opens the exponent: never a digit
      if j < |t| {
        assert t[j] == t[j..][0];
      }
      if i < |t| {
        if i < j {
          assert t[i] == t[i..j][0];
        } else {
          assert t[i] == t[j..][0];
        }
      }
      ScanIntAt(t, i);
      ScanFracAt(t, i, j);
      ScanExpAt(t, j);
    }
  }

  // ---- What the decoder accepts around and instead of a number literal ----

  /** `s[a..b]` is surrounded by nothing but JSON whitespace. */
  ghost predicate Padded(s: string, a: int, b: int)
  {
    && 0 <= a <= b <= |s|
    && (forall i :: 0 <= i < a ==> IsJsonSpace(s[i]))
    && (forall i :: b <= i < |s| ==> IsJsonSpace(s[i]))
  }

  /** A JSON text that decodes into a `json.Number` without error. */
  ghost predicate DecodesAsNumber(t: string)
  {
    || NumberLiteral(t)
    || t == "null"
    || (|t| >= 2 && t[0] == '"' && t[|t| - 1] == '"' && NumberLiteral(t[1..|t| - 1]))
  }

  /** The end of the run of JSON whitespace that starts at `k`. */
  function SpaceEnd(s: string, k: nat): (e: nat)
    requires k <= |s|
    ensures k <= e <= |s|
    ensures forall i :: k <= i < e ==> IsJsonSpace(s[i])
    ensures e < |s| ==> !IsJsonSpace(s[e])
    decreases |s| - k
  {
    if k < |s| && IsJsonSpace(s[k]) then SpaceEnd(s, k + 1) else k
  }

  /** The start of the run of JSON whitespace that ends at `k`, going no lower than `lo`. */
  function SpaceStart(s: string, k: nat, lo: nat): (b: nat)
    requires lo <= k <= |s|
    ensures lo <= b <= k
    ensures forall i :: b <= i < k ==> IsJsonSpace(s[i])
    ensures lo < b ==> !IsJsonSpace(s[b - 1])
    decreases k
  {
    if lo < k && IsJsonSpace(s[k - 1]) then SpaceStart(s, k - 1, lo) else k
  }

  /**
   * Go's `isNumber`: `json.Unmarshal` into a `json.Number` succeeds exactly
   * when the text, once its surrounding JSON whitespace is set aside, is a
   * number literal, `null`, or a quoted number literal.
   */
  function IsNumber(s: string): (b: bool)
    ensures b <==> exists a, c :: Padded(s, a, c) && DecodesAsNumber(s[a..c])
  {
    var a := SpaceEnd(s, 0);
    var c := SpaceStart(s, |s|, a);
    var t := s[a..c];
    IsNumberComplete(s);
    || ScanNumber(t)
    || t == "null"
    || (|t| >= 2 && t[0] == '"' && t[|t| - 1] == '"' && ScanNumber(t[1..|t| - 1]))
  }

  /** A number literal neither starts nor ends with whitespace. */
  lemma NumberLiteralEdges(t: string)
    requires NumberLiteral(t)
    ensures |t| > 0 && !IsJsonSpace(t[0]) && !IsJsonSpace(t[|t| - 1])
  {
    var u := if |t| > 0 && t[0] == '-' then t[1..] else t;
    UnsignedEdges(u);
    assert t[|t| - 1] == u[|u| - 1];
  }

  /** An unsigned number starts and ends with a digit. */
  lemma UnsignedEdges(u: string)
    requires Unsigned(u)
    ensures |u| > 0 && IsDigit(u[0]) && IsDigit(u[|u| - 1])
  {
    var i, j :| 0 <= i <= j <= |u| && IntPart(u[..i]) && FracPart(u[i..j]) && ExpPart(u[j..]);
    assert u[0] == u[..i][0];
    if j < |u| {
      ExpPartLast(u[j..]);
      assert u[|u| - 1] == u[j..][|u| - j - 1];
    } else if i < j {
      FracPartLast(u[i..j]);
      assert u[|u| - 1] == u[i..j][j - i - 1];
    } else {
      assert u[|u| - 1] == u[..i][i - 1];
    }
  }

  lemma ExpPartLast(x: string)
    requires ExpPart(x) && x != ""
    ensures IsDigit(x[|x| - 1])
  {
    if Digits(x[1..]) {
      assert x[|x| - 1] == x[1..][|x| - 2];
    } else {
      assert x[|x| - 1] == x[2..][|x| - 3];
    }
  }

  lemma FracPartLast(x: string)
    requires FracPart(x) && x != ""
    ensures IsDigit(x[|x| - 1])
  {
    assert x[|x| - 1] == x[1..][|x| - 2];
  }

  /** A decodable text neither starts nor ends with whitespace. */
  lemma DecodableEdges(t: string)
    requires DecodesAsNumber(t)
    ensures |t| > 0 && !IsJsonSpace(t[0]) && !IsJsonSpace(t[|t| - 1])
  {
    if NumberLiteral(t) {
      NumberLiteralEdges(t);
    }
  }

  /** Padding around a text that starts and ends with a non-space is exactly what the scans skip. */
  lemma PaddingUnique(s: string, a: nat, c: nat)
    requires Padded(s, a, c) && a < c
    requires !IsJsonSpace(s[a]) && !IsJsonSpace(s[c - 1])
    ensures SpaceEnd(s, 0) == a && SpaceStart(s, |s|, a) == c
  {
  }

  /** Any padding that leaves a decodable text is exactly the whitespace the scans skip. */
  lemma IsNumberComplete(s: string)
    ensures var a := SpaceEnd(s, 0);
      (exists a', c' :: Padded(s, a', c') && DecodesAsNumber(s[a'..c'])) <==>
      DecodesAsNumber(s[a..SpaceStart(s, |s|, a)])
  {
    var a := SpaceEnd(s, 0);
    var c := SpaceStart(s, |s|, a);
    assert Padded(s, a, c);
    if exists a', c' :: Padded(s, a', c') && DecodesAsNumber(s[a'..c']) {
      var a', c' :| Padded(s, a', c') && DecodesAsNumber(s[a'..c']);
      DecodablePadding(s, a', c');
    }
  }

  /** The padding around a decodable text is the whitespace the scans skip. */
  lemma DecodablePadding(s: string, a: int, c: int)
    requires Padded(s, a, c) && DecodesAsNumber(s[a..c])
    ensures a == SpaceEnd(s, 0) && c == SpaceStart(s, |s|, a)
  {
    var t := s[a..c];
    DecodableEdges(t);
    assert s[a] == t[0] && s[c - 1] == t[|t| - 1];
    PaddingUnique(s, a, c);
  }

  /** Sample names the classification accepts: plain number literals. */
  lemma IsNumberAcceptsLiterals()
    ensures IsNumber("3.14") && IsNumber("-2")
  {
    var pi := "3.14";
    assert IntPart(pi[..1]) && FracPart(pi[1..4]) && ExpPart(pi[4..]);
    assert Padded(pi, 0, 4) && pi[0..4] == pi;
    var two := "-2";
    assert two[1..] == "2";
    assert IntPart("2"[..1]) && FracPart("2"[1..1]) && ExpPart("2"[1..]);
    assert Padded(two, 0, 2) && two[0..2] == two;
  }

  /** Sample names the classification accepts: a padded literal, and `null`. */
  lemma IsNumberAcceptsPadded()
    ensures IsNumber(" 7 ") && IsNumber("null")
  {
    var seven := " 7 ";
    assert seven[1..2] == "7";
    assert IntPart("7"[..1]) && FracPart("7"[1..1]) && ExpPart("7"[1..]);
    assert Padded(seven, 1, 2);
    assert Padded("null", 0, 4) && "null"[0..4] == "null";
  }

  /** Sample names the classification rejects. */
  lemma IsNumberRejects()
    ensures !IsNumber("abc") && !IsNumber("") && !IsNumber("01") && !IsNumber("1.")
  {
    RejectedAsIs("abc");
    RejectedAsIs("01");
    RejectedAsIs("1.");
  }

  /** A name without surrounding whitespace or quotes is a number only if it scans as one. */
  lemma RejectedAsIs(s: string)
    requires 0 < |s| && !IsJsonSpace(s[0]) && !IsJsonSpace(s[|s| - 1])
    requires s != "null" && s[0] != '"' && !ScanNumber(s)
    ensures !IsNumber(s)
  {
    assert SpaceEnd(s, 0) == 0;
    assert SpaceStart(s, |s|, 0) == |s|;
    assert s[0..|s|] == s;
  }
}
