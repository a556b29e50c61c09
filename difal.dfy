/**
 ICMS DIFAL (interstate rate differential) owed to the state of Paraná.

 The destination tax is computed on a base grossed up "por dentro" by the
 destination internal rate (the tax is embedded in the base), the origin tax
 is computed "por fora" on the plain product value, and the DIFAL is their
 difference, with no clamp. All quantities are percentages or amounts over
 exact reals.
 */
module Difal {

  /** Paraná's internal ICMS rate, in percent: 19.5%. */
  const AliquotaInternaPR: real := 39.0 / 2.0

  /** The interstate rates of the three simulated lines, in percent. */
  const AliquotasCenarios: seq<real> := [4.0, 7.0, 12.0]

  /** The four values returned by one calculation. */
  datatype Resultado = Resultado(base: real, icmsOrigem: real, difal: real, efetiva: real)

  /** The all-zero result returned when no product value was given. */
  const Zero: Resultado := Resultado(0.0, 0.0, 0.0, 0.0)

  /** An internal rate for which the gross-up divisor 1 - r/100 is positive. */
  predicate AliquotaInternaValida(r: real) {
    0.0 <= r < 100.0
  }

  /**
   The interstate rate at which the DIFAL vanishes under internal rate `r`:
   the destination tax expressed as a percentage of the product value.
   */
  function Limiar(r: real): (t: real)
    requires AliquotaInternaValida(r)
    ensures t * (100.0 - r) == 100.0 * r
  {
    100.0 * r / (100.0 - r)
  }

  /**
   The calculation for an arbitrary internal rate `r`. A non-positive value
   short-circuits to all zeros; otherwise the base is grossed up by `r`, the
   destination tax is `r`% of that base, the origin tax is `aliqInter`% of the
   value, the DIFAL is their difference and the effective rate is the DIFAL as
   a percentage of the value.
   */
  function CalcularDifalCom(r: real, valor: real, aliqInter: real): (res: Resultado)
    requires AliquotaInternaValida(r)
    ensures valor <= 0.0 ==> res == Zero
    ensures valor > 0.0 ==> res.base * (100.0 - r) == 100.0 * valor
    ensures valor > 0.0 ==> 100.0 * res.icmsOrigem == valor * aliqInter
    ensures valor > 0.0 ==> 100.0 * (res.difal + res.icmsOrigem) == res.base * r
  {
    if valor <= 0.0 then
      Zero
    else
      var base := valor / (1.0 - r / 100.0);
      var icmsDestino := base * (r / 100.0);
      var icmsOrigem := valor * (aliqInter / 100.0);
      var difal := icmsDestino - icmsOrigem;
      var efetiva := (difal / valor) * 100.0;
      Resultado(base, icmsOrigem, difal, efetiva)
  }

  /** The calculation with Paraná's fixed internal rate. */
  function CalcularDifal(valor: real, aliqInter: real): (res: Resultado)
    ensures valor <= 0.0 ==> res == Zero
    ensures valor > 0.0 ==> res.base * 161.0 == valor * 200.0
    ensures valor > 0.0 ==> 100.0 * res.icmsOrigem == valor * aliqInter
  {
    CalcularDifalCom(AliquotaInternaPR, valor, aliqInter)
  }

  /**
   The destination tax (DIFAL plus origin tax) is embedded in the grossed-up
   base: removing it from the base leaves exactly the product value.
   */
  lemma ImpostoPorDentro(r: real, valor: real, aliqInter: real)
    requires AliquotaInternaValida(r)
    requires valor > 0.0
    ensures var res := CalcularDifalCom(r, valor, aliqInter);
      res.base - (res.difal + res.icmsOrigem) == valor
  {
  }

  /**
   The gross-up never shrinks the base, and it strictly enlarges it exactly
   when the internal rate is positive.
   */
  lemma BaseNuncaMenor(r: real, valor: real, aliqInter: real)
    requires AliquotaInternaValida(r)
    requires valor > 0.0
    ensures CalcularDifalCom(r, valor, aliqInter).base >= valor
    ensures CalcularDifalCom(r, valor, aliqInter).base > valor <==> r > 0.0
  {
    var b := CalcularDifalCom(r, valor, aliqInter).base;
    assert (b - valor) * (100.0 - r) == r * valor;
    if r > 0.0 {
      assert (b - valor) * (100.0 - r) > 0.0;
    }
  }

  /** With Paraná's rate the base strictly exceeds the product value. */
  lemma BasePRMaiorQueValor(valor: real, aliqInter: real)
    requires valor > 0.0
    ensures CalcularDifal(valor, aliqInter).base > valor
  {
    BaseNuncaMenor(AliquotaInternaPR, valor, aliqInter);
  }

  /**
   The effective rate does not depend on the product value: it is the
   break-even rate minus the interstate rate.
   */
  lemma EfetivaIndependeDoValor(r: real, valor: real, aliqInter: real)
    requires AliquotaInternaValida(r)
    requires valor > 0.0
    ensures CalcularDifalCom(r, valor, aliqInter).efetiva == Limiar(r) - aliqInter
  {
  }

  /** Two lines with positive values always share the same effective rate. */
  lemma EfetivaIgualEntreValores(r: real, v1: real, v2: real, aliqInter: real)
    requires AliquotaInternaValida(r)
    requires v1 > 0.0 && v2 > 0.0
    ensures CalcularDifalCom(r, v1, aliqInter).efetiva == CalcularDifalCom(r, v2, aliqInter).efetiva
  {
  }

  /**
   Scaling the product value by a positive factor scales the base, the
   origin tax and the DIFAL by that factor and leaves the effective rate as is.
   */
  lemma LinearNoValor(r: real, valor: real, k: real, aliqInter: real)
    requires AliquotaInternaValida(r)
    requires valor > 0.0 && k > 0.0
    ensures var a := CalcularDifalCom(r, valor, aliqInter);
      CalcularDifalCom(r, k * valor, aliqInter)
        == Resultado(k * a.base, k * a.icmsOrigem, k * a.difal, a.efetiva)
  {
  }

  /**
   The DIFAL has the sign of the break-even rate minus the interstate rate:
   negative exactly when the interstate rate is above it, zero exactly at it.
   */
  lemma SinalDoDifal(r: real, valor: real, aliqInter: real)
    requires AliquotaInternaValida(r)
    requires valor > 0.0
    ensures CalcularDifalCom(r, valor, aliqInter).difal < 0.0 <==> aliqInter > Limiar(r)
    ensures CalcularDifalCom(r, valor, aliqInter).difal == 0.0 <==> aliqInter == Limiar(r)
    ensures CalcularDifalCom(r, valor, aliqInter).difal > 0.0 <==> aliqInter < Limiar(r)
  {
  }

  /** Paraná's break-even interstate rate is 3900/161, about 24.22%. */
  lemma LimiarPR()
    ensures Limiar(AliquotaInternaPR) == 3900.0 / 161.0
  {
  }

  /** With Paraná's rate the DIFAL is negative exactly above 3900/161 percent. */
  lemma DifalPRNegativo(valor: real, aliqInter: real)
    requires valor > 0.0
    ensures CalcularDifal(valor, aliqInter).difal < 0.0 <==> aliqInter > 3900.0 / 161.0
    ensures CalcularDifal(valor, aliqInter).efetiva == 3900.0 / 161.0 - aliqInter
  {
    LimiarPR();
    SinalDoDifal(AliquotaInternaPR, valor, aliqInter);
    EfetivaIndependeDoValor(AliquotaInternaPR, valor, aliqInter);
  }

  /** Every simulated line (4%, 7%, 12%) owes a positive DIFAL to Paraná. */
  lemma CenariosDifalPositivo(valor: real, i: nat)
    requires valor > 0.0
    requires i < |AliquotasCenarios|
    ensures CalcularDifal(valor, AliquotasCenarios[i]).difal > 0.0
  {
  }

  /** A 1000.00 line at 4% interstate rate, in exact arithmetic. */
  lemma ExemploPR1000a4()
    ensures CalcularDifal(1000.0, 4.0)
      == Resultado(200000.0 / 161.0, 40.0, 32560.0 / 161.0, 3256.0 / 161.0)
  {
  }
}
