# The project file of the verification.
includes = ["**/*.dfy"]
