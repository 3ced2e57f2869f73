/** The ambiance mixer: a map from sound id to volume. A present key is a
    playing sound; toggling and the volume sliders edit the map. Volumes are
    JavaScript numbers read as reals, and `0` is their only falsy value here. */
module AmbianceMixer {
  /** The ids of the five sounds, in display order. */
  const SoundIds: seq<string> := ["rain", "fire", "wind", "coffee", "night"]

  /** The volume a sound starts at: louder for the thunder track. */
  function DefaultVolume(id: string): (v: real)
    ensures 0.0 < v < 1.0
    ensures v == 0.8 <==> id == "night"
    ensures id != "night" ==> v == 0.5
  {
    if id == "night" then 0.8 else 0.5
  }

  /** `!!volumes[id]`: present and non-zero. */
  predicate Truthy(volumes: map<string, real>, id: string) {
    id in volumes && volumes[id] != 0.0
  }

  /** `volumes[id] !== undefined`: how the board shows a sound as on. */
  predicate Shown(volumes: map<string, real>, id: string) {
    id in volumes
  }

  /** The map after `toggleSound(id)`: a truthy entry is deleted, anything
      else is set to the default volume; no other key changes. */
  function Toggled(volumes: map<string, real>, id: string): (r: map<string, real>)
    ensures forall k :: k != id ==> (k in r <==> k in volumes)
    ensures forall k :: k != id && k in volumes ==> r[k] == volumes[k]
    ensures Truthy(volumes, id) ==> id !in r
    ensures !Truthy(volumes, id) ==> id in r && r[id] == DefaultVolume(id)
  {
    if Truthy(volumes, id) then volumes - {id} else volumes[id := DefaultVolume(id)]
  }

  /** Turning a sound on and off again from silence restores the map. */
  lemma ToggleTwiceFromAbsent(volumes: map<string, real>, id: string)
    requires id !in volumes
    ensures Toggled(Toggled(volumes, id), id) == volumes
  {
    var once := Toggled(volumes, id);
    assert Truthy(once, id);
    assert Toggled(once, id) == once - {id};
    assert once - {id} == volumes;
  }

  /** A stored volume of 0 shows the sound as on, yet a toggle treats it as off
      and sets the default instead of removing it. */
  lemma ZeroIsShownButToggledOn(volumes: map<string, real>, id: string)
    requires id in volumes && volumes[id] == 0.0
    ensures Shown(volumes, id) && !Truthy(volumes, id)
    ensures Shown(Toggled(volumes, id), id) && Toggled(volumes, id)[id] == DefaultVolume(id)
  {
  }

  /** The map after `updateVolume(id, vol)`: that key is set and no other
      changes. */
  function Updated(volumes: map<string, real>, id: string, vol: real): (r: map<string, real>)
    ensures id in r && r[id] == vol && Shown(r, id)
    ensures forall k :: k != id ==> (k in r <==> k in volumes) && (k in volumes ==> r[k] == volumes[k])
  {
    volumes[id := vol]
  }

  /** The slider position: the stored volume when truthy, else the default. */
  function SliderVolume(volumes: map<string, real>, id: string): (v: real)
    ensures v != 0.0
    ensures Truthy(volumes, id) ==> v == volumes[id]
    ensures !Truthy(volumes, id) ==> v == DefaultVolume(id)
  {
    if Truthy(volumes, id) then volumes[id] else DefaultVolume(id)
  }

  /** Switching a silent sound on does not move its slider. */
  lemma ToggleOnKeepsSlider(volumes: map<string, real>, id: string)
    requires !Truthy(volumes, id)
    ensures SliderVolume(Toggled(volumes, id), id) == SliderVolume(volumes, id)
  {
  }

  /** After a non-zero volume is set, the slider shows that volume. */
  lemma SliderShowsUpdate(volumes: map<string, real>, id: string, vol: real)
    requires vol != 0.0
    ensures SliderVolume(Updated(volumes, id, vol), id) == vol
  {
  }

  /** The component's `activeVolumes` state. */
  class Mixer {
    var activeVolumes: map<string, real>

    constructor()
      ensures activeVolumes == map[]
    {
      activeVolumes := map[];
    }

    /** `toggleSound(id)`: copy the map, then delete the key or set the
        default. */
    method ToggleSound(id: string)
      modifies this
      ensures activeVolumes == Toggled(old(activeVolumes), id)
      ensures IsActive(id) <==> !Truthy(old(activeVolumes), id)
      ensures forall k :: k != id ==> (IsActive(k) <==> k in old(activeVolumes))
    {
      var isActive := id in activeVolumes && activeVolumes[id] != 0.0;
      if isActive {
        var next := activeVolumes;
        next := next - {id};
        activeVolumes := next;
      } else {
        var defaultVol := if id == "night" then 0.8 else 0.5;
        activeVolumes := activeVolumes[id := defaultVol];
      }
    }

    /** `updateVolume(id, vol)`. */
    method UpdateVolume(id: string, vol: real)
      modifies this
      ensures activeVolumes == Updated(old(activeVolumes), id, vol)
      ensures IsActive(id) && (vol != 0.0 ==> Volume(id) == vol)
    {
      activeVolumes := activeVolumes[id := vol];
    }

    /** Whether the board shows the sound as on: every playing sound, and a
        stored 0 too, which the toggle treats as off. */
    function IsActive(id: string): (b: bool)
      reads this
      ensures Truthy(activeVolumes, id) ==> b
      ensures !Truthy(activeVolumes, id) ==> (b <==> id in activeVolumes && activeVolumes[id] == 0.0)
    {
      Shown(activeVolumes, id)
    }

    /** The slider value shown for the sound. */
    function Volume(id: string): (v: real)
      reads this
      ensures v != 0.0
      ensures Truthy(activeVolumes, id) ==> v == activeVolumes[id]
      ensures !Truthy(activeVolumes, id) ==> v == DefaultVolume(id)
      ensures !IsActive(id) ==> v == DefaultVolume(id)
    {
      SliderVolume(activeVolumes, id)
    }
  }
}
