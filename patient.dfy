/** The patient record (dsapro/patient.py). */
module PatientRecord {
  import opened Wrappers

  /** The six fields of a patient; `to_dict` and `Patient(**d)` carry exactly these. */
  datatype Patient = Patient(
    patient_id: int,
    name: string,
    age: int,
    disease: string,
    doctor: string,
    registered_at: string)

  /** `Patient(**d)`: the constructor's post-init step stamps a record whose
      `registered_at` is empty with the clock reading `now`. */
  function FromSnapshot(d: Patient, now: string): (p: Patient)
    ensures p.(registered_at := d.registered_at) == d
    ensures d.registered_at != "" ==> p == d
    ensures d.registered_at == "" ==> p.registered_at == now
  {
    if d.registered_at == "" then d.(registered_at := now) else d
  }

  /** A record is stamped once its registration time is set. */
  predicate Stamped(p: Patient) {
    p.registered_at != ""
  }

  /** The keyword arguments of `update_by_id`: a field is set when its entry is `Some`. */
  datatype Changes = Changes(
    patient_id: Option<int>,
    name: Option<string>,
    age: Option<int>,
    disease: Option<string>,
    doctor: Option<string>,
    registered_at: Option<string>)

  /** The `setattr` loop of `update_by_id` applied to one record. */
  function Apply(p: Patient, ch: Changes): (r: Patient)
    ensures ch.patient_id == None ==> r.patient_id == p.patient_id
    ensures ch.registered_at == None ==> r.registered_at == p.registered_at
    ensures ch.name.Some? ==> r.name == ch.name.value
    ensures ch.age.Some? ==> r.age == ch.age.value
    ensures ch.disease.Some? ==> r.disease == ch.disease.value
    ensures ch.doctor.Some? ==> r.doctor == ch.doctor.value
    ensures ch.name.None? ==> r.name == p.name
    ensures ch.age.None? ==> r.age == p.age
    ensures ch.disease.None? ==> r.disease == p.disease
    ensures ch.doctor.None? ==> r.doctor == p.doctor
  {
    Patient(
      if ch.patient_id.Some? then ch.patient_id.value else p.patient_id,
      if ch.name.Some? then ch.name.value else p.name,
      if ch.age.Some? then ch.age.value else p.age,
      if ch.disease.Some? then ch.disease.value else p.disease,
      if ch.doctor.Some? then ch.doctor.value else p.doctor,
      if ch.registered_at.Some? then ch.registered_at.value else p.registered_at)
  }

  /** The changes that set name, age, disease and doctor and nothing else. */
  function SetFour(name: string, age: int, disease: string, doctor: string): Changes {
    Changes(None, Some(name), Some(age), Some(disease), Some(doctor), None)
  }
}
