/** Picking the cars out of an annotation response, parsing them and keeping the valid ones. */
module Cars {
  import opened Wrappers
  import opened Annotations

  /** The part of the response `_extract_cars` reads: `response.annotationResults`, each with
      its `objectAnnotations`. */
  datatype AnnotationResult = AnnotationResult(objectAnnotations: seq<ObjectAnnotation>)
  datatype AnnotationsResponse = AnnotationsResponse(annotationResults: seq<AnnotationResult>)

  /** `_is_car`: the entity is described as a car. */
  predicate IsCar(oa: ObjectAnnotation)
    ensures IsCar(oa) <==> oa.entity.description == "car"
  {
    oa.entity.description == "car"
  }

  /** `_is_car_valid`: fast enough and far enough across the frame. */
  predicate IsCarValid(car: Car, minSpeed: real, minRdt: real)
    ensures IsCarValid(car, minSpeed, minRdt) <==> car.carSpeed >= minSpeed && car.rdt >= minRdt
  {
    car.carSpeed >= minSpeed && car.rdt >= minRdt
  }

  /** `list(filter(_is_car, ar))`: the car entities, in document order. */
  function CarsOf(oas: seq<ObjectAnnotation>): (cars: seq<ObjectAnnotation>)
    ensures |cars| <= |oas|
    ensures forall i :: 0 <= i < |cars| ==> IsCar(cars[i])
  {
    if |oas| == 0 then
      []
    else
      var last := oas[|oas| - 1];
      CarsOf(oas[..|oas| - 1]) + (if IsCar(last) then [last] else [])
  }

  /** The cars are exactly the car entities of the input. */
  lemma {:induction false} CarsOfMembers(oas: seq<ObjectAnnotation>)
    ensures forall o :: o in CarsOf(oas) <==> o in oas && IsCar(o)
  {
    if |oas| > 0 {
      var init := oas[..|oas| - 1];
      assert oas == init + [oas[|oas| - 1]];
      CarsOfMembers(init);
    }
  }

  /** Filtering distributes over concatenation, so the cars keep their document order. */
  lemma {:induction false} CarsOfAppend(a: seq<ObjectAnnotation>, b: seq<ObjectAnnotation>)
    ensures CarsOf(a + b) == CarsOf(a) + CarsOf(b)
  {
    if |b| == 0 {
      assert a + b == a;
    } else {
      assert (a + b)[..|a + b| - 1] == a + b[..|b| - 1];
      CarsOfAppend(a, b[..|b| - 1]);
    }
  }

  /** An entity that is not a car, wherever it stands, changes nothing. */
  lemma NonCarIgnored(a: seq<ObjectAnnotation>, other: ObjectAnnotation, b: seq<ObjectAnnotation>)
    requires !IsCar(other)
    ensures CarsOf(a + [other] + b) == CarsOf(a + b)
  {
    CarsOfAppend(a + [other], b);
    CarsOfAppend(a, [other]);
    CarsOfAppend(a, b);
    assert [other][..0] == [];
    assert CarsOf([other]) == CarsOf([]) + [];
  }

  /** The record or exception of each car, car i parsed with index i. */
  function Outcomes(cars: seq<ObjectAnnotation>, frameRate: int, distance: real): (outcomes: seq<Result<Car>>)
    ensures |outcomes| == |cars|
    ensures forall i :: 0 <= i < |cars| ==> outcomes[i] == AnnotationRecord(i, cars[i], frameRate, distance)
  {
    seq(|cars|, i requires 0 <= i < |cars| => AnnotationRecord(i, cars[i], frameRate, distance))
  }

  /** `list(...)` of a lazy map: all the records in order, or the exception of the first
      outcome that is one. */
  function CollectRecords(outcomes: seq<Result<Car>>): (r: Result<seq<Car>>)
    ensures r.Ok? <==> forall i :: 0 <= i < |outcomes| ==> outcomes[i].Ok?
    ensures r.Ok? ==> |r.value| == |outcomes| && forall i :: 0 <= i < |outcomes| ==> outcomes[i] == Ok(r.value[i])
  {
    if |outcomes| == 0 then
      Ok([])
    else
      var init := outcomes[..|outcomes| - 1];
      assert forall i :: 0 <= i < |init| ==> init[i] == outcomes[i];
      match CollectRecords(init)
      case Err(e) => Err(e)
      case Ok(done) =>
        match outcomes[|outcomes| - 1]
        case Err(e) => Err(e)
        case Ok(car) => Ok(done + [car])
  }

  /** The exception raised is that of the first outcome that is one. */
  lemma {:induction false} CollectFirstError(outcomes: seq<Result<Car>>, i: nat)
    requires i < |outcomes| && outcomes[i].Err?
    requires forall j :: 0 <= j < i ==> outcomes[j].Ok?
    ensures CollectRecords(outcomes) == Err(outcomes[i].error)
  {
    var init := outcomes[..|outcomes| - 1];
    assert forall j :: 0 <= j < |init| ==> init[j] == outcomes[j];
    if i < |outcomes| - 1 {
      CollectFirstError(init, i);
    } else {
      assert CollectRecords(init).Ok?;
    }
  }

  /** Car i, parsed with index i, gives a record for every i. */
  predicate EveryRecordParses(cars: seq<ObjectAnnotation>, frameRate: int, distance: real) {
    forall i :: 0 <= i < |cars| ==> AnnotationRecord(i, cars[i], frameRate, distance).Ok?
  }

  /** `list(map(lambda args: _parse_annotation(...), enumerate(cars)))`. */
  function ParseCars(cars: seq<ObjectAnnotation>, frameRate: int, distance: real): (r: Result<seq<Car>>)
    ensures r.Ok? <==> EveryRecordParses(cars, frameRate, distance)
    ensures r.Ok? ==> |r.value| == |cars|
    ensures r.Ok? ==> forall i {:trigger AnnotationRecord(i, cars[i], frameRate, distance)} :: 0 <= i < |cars| ==>
      AnnotationRecord(i, cars[i], frameRate, distance) == Ok(r.value[i])
  {
    CollectRecords(Outcomes(cars, frameRate, distance))
  }

  /** `list(filter(lambda car: _is_car_valid(car, ...), records))`. */
  function ValidCars(records: seq<Car>, minSpeed: real, minRdt: real): (valid: seq<Car>)
    ensures |valid| <= |records|
    ensures forall i :: 0 <= i < |valid| ==> IsCarValid(valid[i], minSpeed, minRdt)
  {
    if |records| == 0 then
      []
    else
      var last := records[|records| - 1];
      ValidCars(records[..|records| - 1], minSpeed, minRdt) + (if IsCarValid(last, minSpeed, minRdt) then [last] else [])
  }

  /** The valid records are exactly the records that pass the thresholds. */
  lemma {:induction false} ValidCarsMembers(records: seq<Car>, minSpeed: real, minRdt: real)
    ensures forall c :: c in ValidCars(records, minSpeed, minRdt) <==> c in records && IsCarValid(c, minSpeed, minRdt)
  {
    if |records| > 0 {
      var init := records[..|records| - 1];
      assert records == init + [records[|records| - 1]];
      ValidCarsMembers(init, minSpeed, minRdt);
    }
  }

  /** Every record in `valid` carries the position in `records` of the record it is. */
  predicate IndexedFrom(valid: seq<Car>, records: seq<Car>) {
    forall i :: 0 <= i < |valid| ==> 0 <= valid[i].index < |records| && records[valid[i].index] == valid[i]
  }

  predicate IndicesIncrease(cars: seq<Car>) {
    forall i, j :: 0 <= i < j < |cars| ==> cars[i].index < cars[j].index
  }

  /** Records numbered by position keep their numbers through the filter: the indices that
      remain strictly increase and each names the record it came from. */
  lemma {:induction false} ValidCarsKeepIndices(records: seq<Car>, minSpeed: real, minRdt: real)
    requires forall i :: 0 <= i < |records| ==> records[i].index == i
    ensures IndexedFrom(ValidCars(records, minSpeed, minRdt), records)
    ensures IndicesIncrease(ValidCars(records, minSpeed, minRdt))
  {
    if |records| > 0 {
      var init := records[..|records| - 1];
      var last := records[|records| - 1];
      assert forall i :: 0 <= i < |init| ==> init[i] == records[i];
      ValidCarsKeepIndices(init, minSpeed, minRdt);
      assert last.index == |init|;
    }
  }

  /** A stricter threshold never lets in a car the looser one dropped. */
  lemma {:induction false} StricterThresholdKeepsFewer(records: seq<Car>, minSpeed: real, minRdt: real,
                                                        minSpeed': real, minRdt': real)
    requires minSpeed <= minSpeed' && minRdt <= minRdt'
    ensures forall c :: c in ValidCars(records, minSpeed', minRdt') ==> c in ValidCars(records, minSpeed, minRdt)
  {
    ValidCarsMembers(records, minSpeed, minRdt);
    ValidCarsMembers(records, minSpeed', minRdt');
  }

  /** A slow first car is dropped and the second keeps index 1, so the output starts at 1. */
  lemma FilterLeavesIndexGap()
    ensures var slow := Car(map[], "0s", "1s", 0.0, 0.0, 0);
            var fast := Car(map[], "0s", "1s", 40.0, 0.5, 1);
            ValidCars([slow, fast], 1.0, 0.1) == [fast] && ValidCars([slow, fast], 1.0, 0.1)[0].index == 1
  {
    var slow := Car(map[], "0s", "1s", 0.0, 0.0, 0);
    var fast := Car(map[], "0s", "1s", 40.0, 0.5, 1);
    assert [slow, fast][..1] == [slow];
    assert [slow][..0] == [];
  }

  /** `_extract_cars`: the valid records of the car entities of the first annotation result,
      numbered among the cars before the validity filter. An empty result list fails
      `annotationResults[0]`; otherwise the first car whose record fails decides the error. */
  function ExtractCars(response: AnnotationsResponse, frameRate: int, distance: real,
                       minSpeed: real, minRdt: real): (r: Result<seq<Car>>)
    ensures |response.annotationResults| == 0 ==> r == Err(NoAnnotationResults)
    ensures r.Ok? <==> (|response.annotationResults| > 0 &&
      EveryRecordParses(CarsOf(response.annotationResults[0].objectAnnotations), frameRate, distance))
  {
    if |response.annotationResults| == 0 then
      Err(NoAnnotationResults)
    else
      var ar := response.annotationResults[0].objectAnnotations;
      var cars := CarsOf(ar);
      match ParseCars(cars, frameRate, distance)
      case Err(e) => Err(e)
      case Ok(carsFrameBoxesLookup) => Ok(ValidCars(carsFrameBoxesLookup, minSpeed, minRdt))
  }

  /** Each extracted record passes the thresholds and is the record of the car its index names. */
  predicate ExtractsValidRecords(valid: seq<Car>, cars: seq<ObjectAnnotation>, frameRate: int, distance: real,
                                 minSpeed: real, minRdt: real)
  {
    forall i :: 0 <= i < |valid| ==>
      && 0 <= valid[i].index < |cars|
      && IsCarValid(valid[i], minSpeed, minRdt)
      && Ok(valid[i]) == AnnotationRecord(valid[i].index, cars[valid[i].index], frameRate, distance)
  }

  /** Every car whose record passes the thresholds is extracted. */
  predicate ExtractsEveryValidRecord(valid: seq<Car>, cars: seq<ObjectAnnotation>, frameRate: int, distance: real,
                                     minSpeed: real, minRdt: real)
  {
    forall i :: 0 <= i < |cars| && AnnotationRecord(i, cars[i], frameRate, distance).Ok?
      && IsCarValid(AnnotationRecord(i, cars[i], frameRate, distance).value, minSpeed, minRdt)
      ==> AnnotationRecord(i, cars[i], frameRate, distance).value in valid
  }

  /** What `_extract_cars` returns: exactly the valid records among the cars, in order, each
      carrying the index of its car among all cars, so that the indices strictly increase and
      may have gaps. */
  lemma ExtractedCars(response: AnnotationsResponse, frameRate: int, distance: real, minSpeed: real, minRdt: real)
    requires ExtractCars(response, frameRate, distance, minSpeed, minRdt).Ok?
    ensures IndicesIncrease(ExtractCars(response, frameRate, distance, minSpeed, minRdt).value)
    ensures ExtractsValidRecords(ExtractCars(response, frameRate, distance, minSpeed, minRdt).value,
                                 CarsOf(response.annotationResults[0].objectAnnotations), frameRate, distance, minSpeed, minRdt)
    ensures ExtractsEveryValidRecord(ExtractCars(response, frameRate, distance, minSpeed, minRdt).value,
                                     CarsOf(response.annotationResults[0].objectAnnotations), frameRate, distance, minSpeed, minRdt)
  {
    var cars := CarsOf(response.annotationResults[0].objectAnnotations);
    var outcomes := Outcomes(cars, frameRate, distance);
    var records := CollectRecords(outcomes).value;
    forall i | 0 <= i < |records| ensures records[i].index == i {
      assert outcomes[i] == Ok(records[i]);
      RecordFields(i, cars[i], frameRate, distance);
    }
    ValidCarsKeepIndices(records, minSpeed, minRdt);
    ValidCarsMembers(records, minSpeed, minRdt);
    var valid := ValidCars(records, minSpeed, minRdt);
    forall i | 0 <= i < |valid|
      ensures Ok(valid[i]) == AnnotationRecord(valid[i].index, cars[valid[i].index], frameRate, distance)
    {
      assert outcomes[valid[i].index] == Ok(records[valid[i].index]);
    }
    forall i | 0 <= i < |cars| && IsCarValid(AnnotationRecord(i, cars[i], frameRate, distance).value, minSpeed, minRdt)
      ensures AnnotationRecord(i, cars[i], frameRate, distance).value in valid
    {
      assert outcomes[i] == Ok(records[i]);
      assert records[i] in records;
    }
  }
}
