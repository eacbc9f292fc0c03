/** Glyph settings: whether a glyph is drawn, its shape and its material,
    and how they are read from a configuration section. The material is
    floating-point colour data and stays a type parameter. */
module Glyph {
  import opened Wrappers
  import opened PowerOfTwo

  datatype GlyphType = Cone | Cube | Sphere | Crossball | Box | Cursor

  datatype Glyph<M> = Glyph(enabled: bool, glyphType: GlyphType, material: M)

  /** The default glyph: disabled, a crossball, the default material. */
  function Default<M>(defaultMaterial: M): (g: Glyph<M>)
    ensures !g.enabled && g.glyphType == Crossball && g.material == defaultMaterial
  {
    Glyph(false, Crossball, defaultMaterial)
  }

  function Enable<M>(g: Glyph<M>): (r: Glyph<M>)
    ensures r.enabled && r.glyphType == g.glyphType && r.material == g.material
  {
    g.(enabled := true)
  }

  /** enable(type, material) sets all three fields. */
  function EnableWith<M>(g: Glyph<M>, t: GlyphType, m: M): (r: Glyph<M>)
    ensures r == Glyph(true, t, m)
  {
    Glyph(true, t, m)
  }

  function Disable<M>(g: Glyph<M>): (r: Glyph<M>)
    ensures !r.enabled && r.glyphType == g.glyphType && r.material == g.material
  {
    g.(enabled := false)
  }

  function SetGlyphType<M>(g: Glyph<M>, t: GlyphType): (r: Glyph<M>)
    ensures r.glyphType == t && r.enabled == g.enabled && r.material == g.material
  {
    g.(glyphType := t)
  }

  function SetGlyphMaterial<M>(g: Glyph<M>, m: M): (r: Glyph<M>)
    ensures r.material == m && r.enabled == g.enabled && r.glyphType == g.glyphType
  {
    g.(material := m)
  }

  /** The configuration names of the glyph types. */
  function TypeName(t: GlyphType): (s: string)
  {
    match t
    case Cone => "Cone"
    case Cube => "Cube"
    case Sphere => "Sphere"
    case Crossball => "Crossball"
    case Box => "Box"
    case Cursor => "Cursor"
  }

  /** The exact, case-sensitive name lookup of `configure`. */
  function ParseTypeName(s: string): (r: Option<GlyphType>)
    ensures r.Some? ==> TypeName(r.value) == s
  {
    if s == "Cone" then Some(Cone)
    else if s == "Cube" then Some(Cube)
    else if s == "Sphere" then Some(Sphere)
    else if s == "Crossball" then Some(Crossball)
    else if s == "Box" then Some(Box)
    else if s == "Cursor" then Some(Cursor)
    else None
  }

  /** Every type's name parses back to it, and "None" names no type. */
  lemma ParseTypeNameInverse(t: GlyphType)
    ensures ParseTypeName(TypeName(t)) == Some(t)
    ensures TypeName(t) != "None"
  {
  }

  /** `configure`: the type tag (missing means "None") and the material tag
      (missing keeps the current material). "None" disables the glyph and
      keeps its type; a known name sets the type, enables the glyph and
      reads the material; any other name fails before anything changes. */
  function Configure<M>(g: Glyph<M>, typeTag: Option<string>, materialTag: Option<M>): (r: Result<Glyph<M>, string>)
    ensures var name := if typeTag.Some? then typeTag.value else "None";
      && (name == "None" ==> r == Success(g.(enabled := false)))
      && (name != "None" ==> (r.Failure? <==> forall t :: TypeName(t) != name))
      && (r.Success? && name != "None" ==>
            && r.value.enabled
            && TypeName(r.value.glyphType) == name
            && r.value.material == (if materialTag.Some? then materialTag.value else g.material))
  {
    var name := if typeTag.Some? then typeTag.value else "None";
    if name == "None" then Success(g.(enabled := false))
    else
      match ParseTypeName(name)
      case None =>
        assert forall t :: TypeName(t) != name by {
          forall t ensures TypeName(t) != name { ParseTypeNameInverse(t); }
        }
        Failure(name)
      case Some(t) =>
        Success(Glyph(true, t, if materialTag.Some? then materialTag.value else g.material))
  }

  /** The cursor texture: in each dimension the smallest power of two
      covering the cursor image, computed on `unsigned int`. */
  method CursorTextureSize(width: nat, height: nat) returns (texWidth: nat, texHeight: nat)
    requires width <= 0x8000_0000 && height <= 0x8000_0000
    ensures IsPowerOfTwo(texWidth) && texWidth >= width
    ensures IsPowerOfTwo(texHeight) && texHeight >= height
    ensures forall p :: IsPowerOfTwo(p) && p >= width ==> texWidth <= p
    ensures forall p :: IsPowerOfTwo(p) && p >= height ==> texHeight <= p
  {
    texWidth := UnsignedTextureSize(width);
    texHeight := UnsignedTextureSize(height);
  }
}
